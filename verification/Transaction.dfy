/**
 The apply transaction (src/apply.rs, `run`): refuse before touching anything,
 snapshot, mutate in phases through two seams that may fail at any call, and on
 a failure put both seams back.

 The functions first say what each phase does to the accounts, the fragments
 and the ACL entries when it succeeds; the methods then run the phases.
 */
module Transaction {
  import opened Outcomes
  import opened Records
  import opened Plan
  import opened Lockout
  import opened DiskModel
  import opened BackupModel
  import opened ProvisionerModel
  import opened FileAccess
  import opened ApplyPlan
  import opened DeclarationModel

  // ----- what the phases do -----

  /** One account action on the account table; None where the tools refuse it. */
  function AccountStep(accounts: map<string, PwEntry>, managed: seq<ManagedAccount>, a: Action): Option<map<string, PwEntry>> {
    match a
    case Create(t) =>
      if t.name in accounts || (exists n :: n in accounts && accounts[n].uid == t.uid) then None
      else Some(accounts[t.name := PwEntry(t.uid, t.shell)])
    case Update(t) =>
      var found := FindAccount(managed, t.name);
      if found.None? || found.value.uid != t.uid then None
      else if found.value.shell == t.shell || t.name !in accounts then Some(accounts)
      else Some(accounts[t.name := accounts[t.name].(shell := t.shell)])
    case Delete(n) => Some(accounts - {n})
  }

  function AccountsAfter(accounts: map<string, PwEntry>, managed: seq<ManagedAccount>, actions: seq<Action>): Option<map<string, PwEntry>> {
    if actions == [] then Some(accounts)
    else
      var before := AccountsAfter(accounts, managed, actions[..|actions| - 1]);
      if before.None? then None else AccountStep(before.value, managed, actions[|actions| - 1])
  }

  function RuleFor(a: Action): Option<SudoRule> {
    match a
    case Create(t) => AccountRule(t.name, t.sudoCommands, t.sudoRole)
    case Update(t) => AccountRule(t.name, t.sudoCommands, t.sudoRole)
    case Delete(_) => None
  }

  function FragmentsAfter(fragments: Tree, dir: string, actions: seq<Action>): Tree {
    if actions == [] then fragments
    else
      var a := actions[|actions| - 1];
      Install(FragmentsAfter(fragments, dir, actions[..|actions| - 1]), AccountFragment(dir, a.Name()), RuleFor(a))
  }

  /** Some action makes a group of this name. */
  predicate Makes(actions: seq<GroupAction>, n: string) {
    exists i :: 0 <= i < |actions| && actions[i].CreateGroup? && actions[i].name == n
  }

  /** The planned groups were made, empty and with their pins; every other group is as it was. */
  ghost predicate Added(before: GroupTable, after: GroupTable, actions: seq<GroupAction>) {
    && (forall n :: n in after.gids <==> n in before.gids || Makes(actions, n))
    && (forall n :: n in before.gids ==> after.gids[n] == before.gids[n])
    && (forall m :: m in after.members <==> m in before.members && !Makes(actions, m.group))
    && (forall i :: 0 <= i < |actions| && actions[i].CreateGroup? ==>
          && actions[i].name !in before.gids && actions[i].name in after.gids
          && (actions[i].gid.Some? ==> after.gids[actions[i].name] == actions[i].gid.value))
  }

  /** One account action on the group table; None where the tools refuse it. */
  function GroupsStep(groups: GroupTable, managed: seq<ManagedAccount>, a: Action): (r: Option<GroupTable>)
    ensures r.Some? ==> r.value.gids == groups.gids
  {
    match a
    case Create(t) => if Known(groups, t.groups) then Some(Enroll(groups, t.name, t.groups)) else None
    case Update(t) =>
      var found := FindAccount(managed, t.name);
      if found.None? then None
      else if SameItems(t.groups, found.value.groups) then Some(groups)
      else if Known(groups, t.groups) then Some(Reenroll(groups, t.name, t.groups)) else None
    case Delete(n) => Some(Expel(groups, n))
  }

  function GroupsAfter(groups: GroupTable, managed: seq<ManagedAccount>, actions: seq<Action>): (r: Option<GroupTable>)
    ensures r.Some? ==> r.value.gids == groups.gids
  {
    if actions == [] then Some(groups)
    else
      var before := GroupsAfter(groups, managed, actions[..|actions| - 1]);
      if before.None? then None else GroupsStep(before.value, managed, actions[|actions| - 1])
  }

  function MembersAdded(managed: seq<ManagedGroup>, n: string): seq<string> {
    match FindGroup(managed, n)
    case None => []
    case Some(g) => g.membersAdded
  }

  /** The members a grant action wants: the declared ones, or none for a teardown. */
  function MembersWanted(groups: seq<ResolvedGroup>, a: GroupAction): seq<string> {
    if TearsDown(a) then []
    else match FindResolvedGroup(groups, a.name)
         case None => []
         case Some(g) => g.members
  }

  function Memberships(group: string, users: set<string>): set<Membership> {
    set u | u in users :: Membership(group, u)
  }

  /** The users of a list that another list does not hold. */
  function Others(members: seq<string>, skip: seq<string>): set<string> {
    set m | m in members && m !in skip
  }

  /** What Census wants and had not added comes, what it added and wants no longer goes, the rest stays. */
  function MembersStep(table: GroupTable, groups: seq<ResolvedGroup>, managed: seq<ManagedGroup>, a: GroupAction): (r: GroupTable)
    ensures r.gids == table.gids
  {
    var added, wanted := MembersAdded(managed, a.name), MembersWanted(groups, a);
    table.(members := table.members + Memberships(a.name, Others(wanted, added)) - Memberships(a.name, Others(added, wanted)))
  }

  function MembersAfter(table: GroupTable, groups: seq<ResolvedGroup>, managed: seq<ManagedGroup>, actions: seq<GroupAction>): (r: GroupTable)
    ensures r.gids == table.gids
  {
    if actions == [] then table
    else MembersStep(MembersAfter(table, groups, managed, actions[..|actions| - 1]), groups, managed, actions[|actions| - 1])
  }

  /** The groups planned for deletion are gone. */
  function Without(table: GroupTable, actions: seq<GroupAction>): GroupTable {
    GroupTable(table.gids - (set n | n in table.gids && DeleteGroup(n) in actions),
               set m | m in table.members && DeleteGroup(m.group) !in actions)
  }

  /** Revoke what a created or updated account no longer carries, then materialize the rest. */
  function AclStep(acl: Acl, accounts: map<string, PwEntry>, managed: seq<ManagedAccount>, a: Action): (r: Option<Acl>)
    ensures r.Some? ==> r.value.tree == acl.tree
  {
    if a.Delete? then Some(acl)
    else
      var t := a.account;
      var removed := RemovedGrants(t.name, t.fileGrants, managed);
      if removed == [] && t.fileGrants == [] then Some(acl)
      else if t.name !in accounts then None
      else Some(SetGrants(DropGrants(acl, ByUid(accounts[t.name].uid), removed), ByUid(accounts[t.name].uid), t.fileGrants))
  }

  function AclAfter(acl: Acl, accounts: map<string, PwEntry>, managed: seq<ManagedAccount>, actions: seq<Action>): (r: Option<Acl>)
    ensures r.Some? ==> r.value.tree == acl.tree
  {
    if actions == [] then Some(acl)
    else
      var before := AclAfter(acl, accounts, managed, actions[..|actions| - 1]);
      if before.None? then None else AclStep(before.value, accounts, managed, actions[|actions| - 1])
  }

  /** A deleted account's entries go by the UID on record. */
  function AclDelete(acl: Acl, managed: seq<ManagedAccount>, a: Action): (r: Acl)
    ensures r.tree == acl.tree
  {
    if !a.Delete? || FindAccount(managed, a.name).None? then acl
    else DropGrants(acl, ByUid(FindAccount(managed, a.name).value.uid), RemovedGrants(a.name, [], managed))
  }

  function AclAfterDeletes(acl: Acl, managed: seq<ManagedAccount>, actions: seq<Action>): (r: Acl)
    ensures r.tree == acl.tree
  {
    if actions == [] then acl
    else AclDelete(AclAfterDeletes(acl, managed, actions[..|actions| - 1]), managed, actions[|actions| - 1])
  }

  predicate TearsDown(a: GroupAction) {
    a.Release? || a.DeleteGroup?
  }

  function GroupRuleFor(a: GroupAction, groups: seq<ResolvedGroup>): Option<SudoRule> {
    if TearsDown(a) then None
    else match FindResolvedGroup(groups, a.name)
         case None => None
         case Some(g) => GroupRule(g.name, g.sudoCommands)
  }

  function GroupFragmentsAfter(fragments: Tree, dir: string, groups: seq<ResolvedGroup>, actions: seq<GroupAction>): Tree {
    if actions == [] then fragments
    else
      var a := actions[|actions| - 1];
      Install(GroupFragmentsAfter(fragments, dir, groups, actions[..|actions| - 1]), GroupFragment(dir, a.name), GroupRuleFor(a, groups))
  }

  function GroupAclStep(acl: Acl, groups: seq<ResolvedGroup>, managed: seq<ManagedGroup>, a: GroupAction): (r: Acl)
    ensures r.tree == acl.tree
  {
    var keep := if TearsDown(a) then [] else KeepOf(groups, a.name);
    DropGrants(SetGrants(acl, ByGroup(a.name), keep), ByGroup(a.name), RemovedGroupGrants(a.name, keep, managed))
  }

  function GroupAclAfter(acl: Acl, groups: seq<ResolvedGroup>, managed: seq<ManagedGroup>, actions: seq<GroupAction>): (r: Acl)
    ensures r.tree == acl.tree
  {
    if actions == [] then acl
    else GroupAclStep(GroupAclAfter(acl, groups, managed, actions[..|actions| - 1]), groups, managed, actions[|actions| - 1])
  }

  // ----- inputs and outcome -----

  /** Trust, resolution and the inspector's readings enter as values. */
  datatype Inputs = Inputs(
    trusted: bool,
    targets: Option<seq<ResolvedAccount>>,
    groups: Option<seq<ResolvedGroup>>,
    version: nat,
    managed: seq<ManagedAccount>,
    managedGroups: seq<ManagedGroup>,
    facts: GroupFacts,
    members: map<string, seq<string>>,
    live: Option<LiveSessions>,
    lockout: Context)

  datatype RollbackOutcome = Restored | RollbackFailed

  datatype ApplyError =
    | NotTrusted
    | ResolveFailed
    | DeclarationRejected(declaration: DeclarationError)
    | FileAccessFailed(access: FileAccessError)
    | GroupPlanRejected(plan: GroupPlanError)
    | SessionRegistryUnreadable
    | WouldLockOut
    | PhaseFailed(phase: string, provision: ProvisionError, rollback: RollbackOutcome)
    | CorruptPlan(group: string, outcome: RollbackOutcome)

  datatype Report = Report(
    managed: seq<ManagedAccount>, groupRecords: seq<ManagedGroup>,
    mutations: nat, registryWritten: bool, deferred: seq<string>)

  /**
   What a failed run did about it: it had not started, or it asked both seams to
   restore. `stuck` are the files a restore should have removed and could not,
   which the original only logs.
   */
  datatype Undo = Untouched | RolledBack(outcome: RollbackOutcome, stuck: set<Path>) {
    predicate Clean() { Untouched? || (outcome == Restored && stuck == {}) }
  }

  datatype Machine = Machine(files: Tree, acl: Acl)

  /** The part of the disk a run answers for: everything but temporaries and its own snapshot. */
  function Settled(f: Tree, snapshot: string): Tree {
    f - (set p | p in f && (Scratch(p) || p.dir == snapshot))
  }

  /** The part of the disk no phase may touch. */
  function Beyond(f: Tree, tracked: seq<Path>): Tree {
    f - (set p | p in f && (Scratch(p) || p in tracked))
  }

  function PlannedActions(inp: Inputs): seq<Action>
    requires inp.targets.Some?
  {
    DiffSpec(inp.targets.value, inp.managed)
  }

  function LiveNow(inp: Inputs): LiveSessions {
    if inp.live.Some? then inp.live.value else NO_SESSIONS
  }

  function RunActions(inp: Inputs): seq<Action>
    requires inp.targets.Some?
  {
    Executed(PlannedActions(inp), inp.managed, LiveNow(inp))
  }

  function RunDeferred(inp: Inputs): seq<string>
    requires inp.targets.Some?
  {
    Deferred(PlannedActions(inp), inp.managed, LiveNow(inp))
  }

  /** The account registry a successful run reports. */
  function Registry(inp: Inputs): seq<ManagedAccount>
    requires inp.targets.Some?
  {
    ManagedSetSpec(inp.targets.value, inp.version, inp.managed, RunDeferred(inp))
  }

  function RunGrantActions(inp: Inputs): seq<GroupAction>
    requires inp.groups.Some?
  {
    DiffResolvedSpec(inp.groups.value, inp.managedGroups)
  }

  /** What a successful run has done to the groups: made, joined and left by accounts, reconciled, deleted. */
  ghost predicate GroupsApplied(inp: Inputs, before: GroupTable, after: GroupTable)
    requires inp.targets.Some? && inp.groups.Some?
  {
    exists made ::
      && Added(before, made, RunGroupActions(inp))
      && GroupsAfter(made, inp.managed, RunActions(inp)).Some?
      && after == Without(MembersAfter(GroupsAfter(made, inp.managed, RunActions(inp)).value, inp.groups.value, inp.managedGroups, RunGrantActions(inp)),
                          RunGroupActions(inp))
  }

  /** What a successful run has done to accounts, groups, fragments and entries. */
  ghost predicate Applied(inp: Inputs, dir: string, before: Machine, after: Machine)
    requires inp.targets.Some? && inp.groups.Some?
  {
    var actions, grants := RunActions(inp), RunGrantActions(inp);
    && AccountsAfter(Accounts(before.files), inp.managed, actions) == Some(Accounts(after.files))
    && GroupsApplied(inp, Groups(before.files), Groups(after.files))
    && Fragments(after.files, dir) ==
       GroupFragmentsAfter(FragmentsAfter(Fragments(before.files, dir), dir, actions), dir, inp.groups.value, grants)
    && AclAfter(before.acl, Accounts(after.files), inp.managed, actions).Some?
    && after.acl ==
       GroupAclAfter(
         AclAfterDeletes(AclAfter(before.acl, Accounts(after.files), inp.managed, actions).value, inp.managed, actions),
         inp.groups.value, inp.managedGroups, grants)
  }

  // ----- rollback -----

  lemma CopiesAreNotScratch(saved: seq<Saved>, targets: seq<Path>, dir: string, i: nat)
    requires saved == SavedPairs(targets, dir) && i < |saved|
    ensures !Scratch(saved[i].copy)
  {
    Pad3ReadsBack(i);
    assert |Pad3(i)| > 0;
    assert CopyName(i, targets[i])[0] == Pad3(i)[0];
  }

  /** Restoring undoes anything done to tracked files and temporaries. */
  lemma RestoreUndoes(base: Tree, now: Tree, targets: seq<Path>, dir: string)
    requires forall i :: 0 <= i < |targets| ==> targets[i].dir != dir && !Scratch(targets[i])
    requires Distinct(targets)
    requires HoldsCopies(base, base, SavedPairs(targets, dir))
    requires Beyond(base, targets) == Beyond(now, targets)
    ensures Settled(RestoreAll(now, SavedPairs(targets, dir)), dir) == Settled(base, dir)
  {
    hide CopyName;
    var saved := SavedPairs(targets, dir);
    forall i | 0 <= i < |saved| ensures SameAt(base, now, saved[i].copy) {
      CopiesAreNotScratch(saved, targets, dir, i);
      assert saved[i].copy in Beyond(base, targets) <==> saved[i].copy in base;
      assert saved[i].copy in Beyond(now, targets) <==> saved[i].copy in now;
    }
    var restored := RestoreAll(now, saved);
    forall p | !Scratch(p) && p.dir != dir ensures SameAt(base, restored, p) {
      if p in targets {
        var i :| 0 <= i < |targets| && targets[i] == p;
        RestoredTarget(base, now, saved, dir, i);
      } else {
        assert p in Beyond(base, targets) <==> p in base;
        assert p in Beyond(now, targets) <==> p in now;
        RestoreLeavesRest(now, saved, p);
      }
    }
    forall p ensures p in Settled(restored, dir) <==> p in Settled(base, dir) {
      if !Scratch(p) && p.dir != dir { assert SameAt(base, restored, p); }
    }
    forall p | p in Settled(base, dir) ensures Settled(restored, dir)[p] == Settled(base, dir)[p] {
      assert SameAt(base, restored, p);
    }
  }

  /** A file that was absent at the snapshot and could not be removed: the disk is not as it was. */
  lemma StuckIsNotBack(base: Tree, now: Tree, end: Tree, targets: seq<Path>, dir: string, p: Path)
    requires forall i :: 0 <= i < |targets| ==> targets[i].dir != dir && !Scratch(targets[i])
    requires HoldsCopies(base, base, SavedPairs(targets, dir)) && Beyond(base, targets) == Beyond(now, targets)
    requires exists i :: 0 <= i < |targets| && targets[i] == p && SavedPairs(targets, dir)[i].copy !in now
    requires p in end
    ensures Settled(end, dir) != Settled(base, dir)
  {
    hide CopyName;
    var saved := SavedPairs(targets, dir);
    var i :| 0 <= i < |targets| && targets[i] == p && saved[i].copy !in now;
    CopiesAreNotScratch(saved, targets, dir, i);
    assert saved[i].copy in Beyond(base, targets) <==> saved[i].copy in base;
    assert saved[i].copy in Beyond(now, targets) <==> saved[i].copy in now;
    assert p in Settled(end, dir) && p !in Settled(base, dir);
  }

  /** Settled alike: every file but temporaries and the snapshot is the same, presence and contents. */
  lemma SettledIff(f: Tree, g: Tree, snapshot: string)
    ensures Settled(f, snapshot) == Settled(g, snapshot) <==>
            forall p: Path :: !Scratch(p) && p.dir != snapshot ==> SameAt(f, g, p)
  {
    if Settled(f, snapshot) == Settled(g, snapshot) {
      forall p: Path | !Scratch(p) && p.dir != snapshot ensures SameAt(f, g, p) {
        assert p in Settled(f, snapshot) <==> p in f;
        assert p in Settled(g, snapshot) <==> p in g;
      }
    }
    if forall p: Path :: !Scratch(p) && p.dir != snapshot ==> SameAt(f, g, p) {
      forall p ensures p in Settled(f, snapshot) <==> p in Settled(g, snapshot) {
        if !Scratch(p) && p.dir != snapshot { assert SameAt(f, g, p); }
      }
      forall p | p in Settled(f, snapshot) ensures Settled(f, snapshot)[p] == Settled(g, snapshot)[p] { assert SameAt(f, g, p); }
    }
  }

  lemma BeyondFrame(f: Tree, g: Tree, footprint: set<Path>, tracked: seq<Path>)
    requires Within(f, g, footprint)
    requires forall p :: p in footprint ==> p in tracked || Scratch(p)
    ensures Beyond(f, tracked) == Beyond(g, tracked)
  {
    forall p | !Scratch(p) && p !in tracked ensures SameAt(f, g, p) { WithinAt(f, g, footprint, p); }
    forall p ensures p in Beyond(f, tracked) <==> p in Beyond(g, tracked) {
      if !Scratch(p) && p !in tracked { assert SameAt(f, g, p); }
    }
    forall p | p in Beyond(f, tracked) ensures Beyond(f, tracked)[p] == Beyond(g, tracked)[p] {
      assert SameAt(f, g, p);
    }
  }

  lemma FragmentInstalled(f: Tree, g: Tree, dir: string, p: Path, rule: Option<SudoRule>)
    requires Within(f, g, {p, FragmentTemp(p)}) && IsFragment(dir, p)
    requires SameAt(Install(f, p, rule), g, p)
    ensures Fragments(g, dir) == Install(Fragments(f, dir), p, rule)
  {
    forall q | IsFragment(dir, q) ensures SameAt(Install(Fragments(f, dir), p, rule), g, q) {
      if q != p { WithinAt(f, g, {p, FragmentTemp(p)}, q); }
    }
    var expected := Install(Fragments(f, dir), p, rule);
    forall q ensures q in Fragments(g, dir) <==> q in expected {
      if IsFragment(dir, q) { assert SameAt(expected, g, q); }
    }
    forall q | q in expected ensures Fragments(g, dir)[q] == expected[q] {
      assert SameAt(expected, g, q);
    }
  }

  /** A transaction: the two seams, and what they held when the snapshots were taken. */
  class Tx {
    const prov: Provisioner
    const access: AclBackend
    ghost const base: Tree
    ghost const baseAcl: Acl
    ghost const targets: seq<Path>
    ghost const snapshot: string
    ghost const paths: set<string>

    /** Both snapshots are in place and nothing outside them has moved. */
    ghost predicate Open()
      reads this, prov, prov.backup, prov.disk, access
    {
      && prov.Valid() && access.disk == prov.disk
      && prov.backup.targets == targets && Distinct(targets)
      && prov.backup.snapshotDir == Some(snapshot)
      && prov.backup.saved == SavedPairs(targets, snapshot)
      && (forall i :: 0 <= i < |targets| ==> targets[i].dir != snapshot && !Scratch(targets[i]))
      && HoldsCopies(base, base, SavedPairs(targets, snapshot))
      && Beyond(base, targets) == Beyond(prov.disk.files, targets)
      && AclWithin(baseAcl, access.acl, paths)
      && access.lastSnapshot ==
         (if paths == {} then None else Some(AclSnapshot(paths, Dump(baseAcl, paths))))
    }

    /** As it was at the snapshot. */
    ghost predicate Back()
      reads this, prov, prov.disk, access
    {
      Settled(prov.disk.files, snapshot) == Settled(base, snapshot) && access.acl == baseAcl
    }

    constructor (prov: Provisioner, access: AclBackend, ghost paths: set<string>)
      requires prov.Valid() && access.disk == prov.disk
      requires prov.backup.snapshotDir.Some?
      requires prov.backup.saved == SavedPairs(prov.backup.targets, prov.backup.snapshotDir.value)
      requires forall i :: 0 <= i < |prov.backup.targets| ==>
                 prov.backup.targets[i].dir != prov.backup.snapshotDir.value && !Scratch(prov.backup.targets[i])
      requires HoldsCopies(prov.disk.files, prov.disk.files, prov.backup.saved)
      requires access.lastSnapshot ==
               (if paths == {} then None else Some(AclSnapshot(paths, Dump(access.acl, paths))))
      ensures Open()
      ensures this.prov == prov && this.access == access && this.paths == paths
      ensures base == prov.disk.files && baseAcl == access.acl
      ensures targets == prov.backup.targets && Some(snapshot) == prov.backup.snapshotDir
    {
      this.prov, this.access, this.paths := prov, access, paths;
      base, baseAcl := prov.disk.files, access.acl;
      targets, snapshot := prov.backup.targets, prov.backup.snapshotDir.value;
    }

    /** `phase_failure`, `phase_failure_file_access`, `abort_with_rollback`: both seams go back. */
    method RollBack() returns (outcome: RollbackOutcome, undo: Undo)
      requires Open()
      modifies prov.disk, access`acl
      ensures undo.RolledBack? && undo.outcome == outcome
      ensures undo.Clean() ==> Back()
      ensures outcome == Restored && Back() ==> undo.Clean()
    {
      ghost var now := prov.disk.files;
      ghost var nowAcl := access.acl;
      var restored, stuck := prov.Restore();
      var entries := access.Restore();
      outcome := if restored.Ok? && entries.Ok? then Restored else RollbackFailed;
      undo := RolledBack(outcome, stuck);
      if undo.Clean() {
        RestoreUndoes(base, now, targets, snapshot);
        AclRestoreUndoes(baseAcl, nowAcl, paths);
        if paths == {} {
          assert Elsewhere(nowAcl, {}).entries == nowAcl.entries && Elsewhere(baseAcl, {}).entries == baseAcl.entries;
        }
      } else if stuck != {} {
        var p :| p in stuck;
        StuckIsNotBack(base, now, prov.disk.files, targets, snapshot, p);
      }
    }

    /** The tracked set covers the account database and every fragment of these names. */
    ghost predicate Tracks(accounts: seq<Action>, groups: seq<GroupAction>)
      reads this
    {
      && (forall p :: p in AuthDb() ==> p in targets)
      && (forall a :: a in accounts ==> AccountFragment(prov.dir, a.Name()) in targets)
      && (forall g :: g in groups ==> GroupFragment(prov.dir, g.name) in targets)
    }

    /** Make one group. */
    method MakeGroup(name: string, gid: Option<nat>) returns (r: Result<(), ProvisionError>)
      requires Open() && GROUP in targets && GSHADOW in targets
      modifies prov.disk
      ensures Open()
      ensures Accounts(prov.disk.files) == old(Accounts(prov.disk.files))
      ensures Fragments(prov.disk.files, prov.dir) == old(Fragments(prov.disk.files, prov.dir))
      ensures r.Ok? ==>
        && name !in old(Groups(prov.disk.files)).gids && name in Groups(prov.disk.files).gids
        && Groups(prov.disk.files) == WithGroup(old(Groups(prov.disk.files)), name, Groups(prov.disk.files).gids[name])
        && (gid.Some? ==> Groups(prov.disk.files).gids[name] == gid.value)
    {
      r := prov.CreateGroup(name, gid);
      BeyondFrame(old(prov.disk.files), prov.disk.files, GROUP_DB, targets);
      AccountsFrame(old(prov.disk.files), prov.disk.files, GROUP_DB);
      FragmentsFrame(old(prov.disk.files), prov.disk.files, GROUP_DB, prov.dir);
    }

    /** Delete one group. */
    method DropGroup(name: string) returns (r: Result<(), ProvisionError>)
      requires Open() && GROUP in targets && GSHADOW in targets
      modifies prov.disk
      ensures Open()
      ensures Accounts(prov.disk.files) == old(Accounts(prov.disk.files))
      ensures Fragments(prov.disk.files, prov.dir) == old(Fragments(prov.disk.files, prov.dir))
      ensures r.Ok? ==> Groups(prov.disk.files) == WithoutGroup(old(Groups(prov.disk.files)), name)
    {
      r := prov.DeleteGroup(name);
      BeyondFrame(old(prov.disk.files), prov.disk.files, GROUP_DB, targets);
      AccountsFrame(old(prov.disk.files), prov.disk.files, GROUP_DB);
      FragmentsFrame(old(prov.disk.files), prov.disk.files, GROUP_DB, prov.dir);
    }

    /** Add one member, or remove one. */
    method SetMember(group: string, member: string, joins: bool) returns (r: Result<(), ProvisionError>)
      requires Open() && GROUP in targets && GSHADOW in targets
      modifies prov.disk
      ensures Open()
      ensures Accounts(prov.disk.files) == old(Accounts(prov.disk.files))
      ensures Fragments(prov.disk.files, prov.dir) == old(Fragments(prov.disk.files, prov.dir))
      ensures r.Ok? ==> Groups(prov.disk.files) == MembersSet(old(Groups(prov.disk.files)), group, {member}, joins)
    {
      if joins {
        r := prov.AddGroupMember(group, member);
      } else {
        r := prov.RemoveGroupMember(group, member);
      }
      BeyondFrame(old(prov.disk.files), prov.disk.files, GROUP_DB, targets);
      AccountsFrame(old(prov.disk.files), prov.disk.files, GROUP_DB);
      FragmentsFrame(old(prov.disk.files), prov.disk.files, GROUP_DB, prov.dir);
    }

    /** Write or clear one fragment. */
    method ApplyRule(p: Path, rule: Option<SudoRule>) returns (r: Result<(), ProvisionError>)
      requires Open() && p in targets && IsFragment(prov.dir, p)
      modifies prov.disk
      ensures Open()
      ensures Accounts(prov.disk.files) == old(Accounts(prov.disk.files))
      ensures Groups(prov.disk.files) == old(Groups(prov.disk.files))
      ensures r.Ok? ==> Fragments(prov.disk.files, prov.dir) == Install(old(Fragments(prov.disk.files, prov.dir)), p, rule)
    {
      r := prov.ApplyRule(p, rule);
      var footprint := {p, FragmentTemp(p)};
      BeyondFrame(old(prov.disk.files), prov.disk.files, footprint, targets);
      AccountsFrame(old(prov.disk.files), prov.disk.files, footprint);
      GroupsFrame(old(prov.disk.files), prov.disk.files, footprint);
      if r.Ok? {
        FragmentInstalled(old(prov.disk.files), prov.disk.files, prov.dir, p, rule);
      }
    }

    /** Phase 1: missing groups first, so that accounts can join them. */
    method CreateGroups(actions: seq<GroupAction>) returns (r: Result<seq<CreatedGroup>, ProvisionError>)
      requires Open() && GROUP in targets && GSHADOW in targets
      modifies prov.disk
      ensures Open()
      ensures Accounts(prov.disk.files) == old(Accounts(prov.disk.files))
      ensures Fragments(prov.disk.files, prov.dir) == old(Fragments(prov.disk.files, prov.dir))
      ensures r.Ok? ==>
        && CreatedFrom(actions, r.value) && GidsTrue(r.value, Groups(prov.disk.files))
        && Added(old(Groups(prov.disk.files)), Groups(prov.disk.files), actions)
    {
      hide Open;
      var created := [];
      for i := 0 to |actions|
        invariant Open()
        invariant Accounts(prov.disk.files) == old(Accounts(prov.disk.files))
        invariant Fragments(prov.disk.files, prov.dir) == old(Fragments(prov.disk.files, prov.dir))
        invariant CreatedFrom(actions[..i], created) && GidsTrue(created, Groups(prov.disk.files))
        invariant forall c :: c in created ==> c.name in Groups(prov.disk.files).gids
        invariant Added(old(Groups(prov.disk.files)), Groups(prov.disk.files), actions[..i])
      {
        assert actions[..i + 1][..i] == actions[..i] && actions[..i + 1] == actions[..i] + [actions[i]];
        ghost var before := Groups(prov.disk.files);
        if actions[i].CreateGroup? {
          var name := actions[i].name;
          var done := MakeGroup(name, actions[i].gid);
          if done.Err? {
            return Err(done.error);
          }
          var gid := actions[i].gid;
          if gid.None? {
            gid := prov.GroupGid(name);
          }
          AddedNext(old(Groups(prov.disk.files)), before, Groups(prov.disk.files), actions[..i], actions[i]);
          created := created + [CreatedGroup(name, gid)];
        } else {
          AddedSkips(old(Groups(prov.disk.files)), before, actions[..i], actions[i]);
        }
      }
      assert actions[..|actions|] == actions;
      return Ok(created);
    }

    /** One account action, then its fragment; for a delete the fragment goes first. */
    method AccountAction(a: Action) returns (r: Result<(), ProvisionError>)
      requires Open() && Tracks([a], [])
      modifies prov.disk
      ensures Open()
      ensures r.Ok? ==>
        && AccountStep(old(Accounts(prov.disk.files)), prov.managed, a) == Some(Accounts(prov.disk.files))
        && GroupsStep(old(Groups(prov.disk.files)), prov.managed, a) == Some(Groups(prov.disk.files))
        && Fragments(prov.disk.files, prov.dir) ==
           Install(old(Fragments(prov.disk.files, prov.dir)), AccountFragment(prov.dir, a.Name()), RuleFor(a))
    {
      assert a in [a];
      var fragment := AccountFragment(prov.dir, a.Name());
      if a.Delete? {
        r := ApplyRule(fragment, None);
        if r.Err? {
          return;
        }
      }
      ghost var before := prov.disk.files;
      match a {
        case Create(t) => r := prov.Create(t);
        case Update(t) => r := prov.Update(t);
        case Delete(n) => r := prov.Delete(n);
      }
      BeyondFrame(before, prov.disk.files, AuthDb(), targets);
      FragmentsFrame(before, prov.disk.files, AuthDb(), prov.dir);
      if r.Ok? && !a.Delete? {
        r := ApplyRule(fragment, RuleFor(a));
      }
    }

    /** Phases 2 and 3: creates and updates, then deletes, in plan order. */
    method AccountPhase(actions: seq<Action>) returns (r: Result<(), ProvisionError>)
      requires Open() && Tracks(actions, [])
      modifies prov.disk
      ensures Open()
      ensures r.Ok? ==>
        && AccountsAfter(old(Accounts(prov.disk.files)), prov.managed, actions) == Some(Accounts(prov.disk.files))
        && GroupsAfter(old(Groups(prov.disk.files)), prov.managed, actions) == Some(Groups(prov.disk.files))
        && Fragments(prov.disk.files, prov.dir) ==
           FragmentsAfter(old(Fragments(prov.disk.files, prov.dir)), prov.dir, actions)
    {
      for i := 0 to |actions|
        invariant Open()
        invariant AccountsAfter(old(Accounts(prov.disk.files)), prov.managed, actions[..i]) == Some(Accounts(prov.disk.files))
        invariant GroupsAfter(old(Groups(prov.disk.files)), prov.managed, actions[..i]) == Some(Groups(prov.disk.files))
        invariant Fragments(prov.disk.files, prov.dir) ==
                  FragmentsAfter(old(Fragments(prov.disk.files, prov.dir)), prov.dir, actions[..i])
      {
        assert actions[..i + 1][..i] == actions[..i];
        assert actions[i] in actions;
        r := AccountAction(actions[i]);
        if r.Err? {
          return;
        }
      }
      assert actions[..|actions|] == actions;
      return Ok(());
    }

    /** Revoke a list of grants from one principal. */
    method RevokeAll(principal: Principal, grants: seq<Grant>) returns (r: Result<(), FileAccessError>)
      requires Open() && PathsOf(grants) <= paths
      modifies access`acl
      ensures Open()
      ensures r.Ok? && grants != [] ==>
        && HolderOf(principal, Accounts(prov.disk.files)).Some?
        && access.acl == DropGrants(old(access.acl), HolderOf(principal, Accounts(prov.disk.files)).value, grants)
      ensures r.Ok? && grants == [] ==> access.acl == old(access.acl)
    {
      ghost var holder := HolderOf(principal, Accounts(prov.disk.files));
      for i := 0 to |grants|
        invariant Open()
        invariant i > 0 ==> holder.Some?
        invariant i == 0 ==> access.acl == old(access.acl)
        invariant holder.Some? ==> access.acl == DropGrants(old(access.acl), holder.value, grants[..i])
      {
        assert grants[..i + 1][..i] == grants[..i];
        ghost var before := access.acl;
        assert grants[i].path in PathsOf(grants);
        r := access.Revoke(principal, grants[i]);
        AclWithinGrows(before, access.acl, {grants[i].path}, paths);
        if r.Err? {
          return;
        }
      }
      assert grants[..|grants|] == grants;
      return Ok(());
    }

    method MaterializeAll(principal: Principal, grants: seq<Grant>) returns (r: Result<(), FileAccessError>)
      requires Open() && PathsOf(grants) <= paths
      modifies access`acl
      ensures Open()
      ensures r.Ok? && grants != [] ==>
        && HolderOf(principal, Accounts(prov.disk.files)).Some?
        && access.acl == SetGrants(old(access.acl), HolderOf(principal, Accounts(prov.disk.files)).value, grants)
      ensures r.Ok? && grants == [] ==> access.acl == old(access.acl)
    {
      r := access.Materialize(principal, grants);
      AclWithinGrows(old(access.acl), access.acl, PathsOf(grants), paths);
    }

    /** Phase 3b, first half: grants of created and updated accounts. */
    method GrantPhase(actions: seq<Action>) returns (r: Result<(), FileAccessError>)
      requires Open()
      requires forall a :: a in actions ==> GrantPathsOf(a, prov.managed) <= paths
      requires forall a :: a in actions && !a.Delete? ==> PathsOf(a.account.fileGrants) <= paths
      modifies access`acl
      ensures Open()
      ensures r.Ok? ==> AclAfter(old(access.acl), Accounts(prov.disk.files), prov.managed, actions) == Some(access.acl)
    {
      for i := 0 to |actions|
        invariant Open()
        invariant AclAfter(old(access.acl), Accounts(prov.disk.files), prov.managed, actions[..i]) == Some(access.acl)
      {
        assert actions[..i + 1][..i] == actions[..i];
        var a := actions[i];
        assert a in actions;
        if !a.Delete? {
          var t := a.account;
          var removed := RemovedGrants(t.name, t.fileGrants, prov.managed);
          r := RevokeAll(User(t.name), removed);
          if r.Err? {
            return;
          }
          r := MaterializeAll(User(t.name), t.fileGrants);
          if r.Err? {
            return;
          }
        }
      }
      assert actions[..|actions|] == actions;
      return Ok(());
    }

    /** Phase 3b, second half: a deleted account's grants, by its recorded UID. */
    method DeletePhase(actions: seq<Action>) returns (r: Result<(), FileAccessError>)
      requires Open()
      requires forall a :: a in actions ==> GrantPathsOf(a, prov.managed) <= paths
      modifies access`acl
      ensures Open()
      ensures r.Ok? ==> access.acl == AclAfterDeletes(old(access.acl), prov.managed, actions)
    {
      for i := 0 to |actions|
        invariant Open()
        invariant access.acl == AclAfterDeletes(old(access.acl), prov.managed, actions[..i])
      {
        assert actions[..i + 1][..i] == actions[..i];
        var a := actions[i];
        assert a in actions;
        if a.Delete? {
          var record := FindAccount(prov.managed, a.name);
          var removed := RemovedGrants(a.name, [], prov.managed);
          if record.Some? {
            r := RevokeAll(Uid(record.value.uid), removed);
          } else {
            r := RevokeAll(User(a.name), removed);
          }
          if r.Err? {
            return;
          }
        }
      }
      assert actions[..|actions|] == actions;
      return Ok(());
    }

    /** Add to the group, or remove from it, every user of a list that another list does not hold. */
    method MemberCommands(group: string, members: seq<string>, skip: seq<string>, joins: bool, count: nat) returns (r: Result<nat, ProvisionError>)
      requires Open() && GROUP in targets && GSHADOW in targets
      modifies prov.disk
      ensures Open()
      ensures Accounts(prov.disk.files) == old(Accounts(prov.disk.files))
      ensures Fragments(prov.disk.files, prov.dir) == old(Fragments(prov.disk.files, prov.dir))
      ensures r.Ok? ==> Groups(prov.disk.files) == MembersSet(old(Groups(prov.disk.files)), group, Others(members, skip), joins)
    {
      hide Open, Groups;
      var n := count;
      ghost var was := Groups(prov.disk.files);
      NobodyMoves(was, group, joins);
      assert Others(members[..0], skip) == {};
      for i := 0 to |members|
        invariant Open()
        invariant Accounts(prov.disk.files) == old(Accounts(prov.disk.files))
        invariant Fragments(prov.disk.files, prov.dir) == old(Fragments(prov.disk.files, prov.dir))
        invariant Groups(prov.disk.files) == MembersSet(old(Groups(prov.disk.files)), group, Others(members[..i], skip), joins)
      {
        assert members[..i + 1] == members[..i] + [members[i]];
        OthersGrow(members[..i], members[i], skip);
        if members[i] !in skip {
          var done := SetMember(group, members[i], joins);
          if done.Err? {
            return Err(done.error);
          }
          OneMoreMoves(was, group, Others(members[..i], skip), members[i], joins);
          n := n + 1;
        }
      }
      assert members[..|members|] == members;
      return Ok(n);
    }

    /** Phase 3c for one group: fragment, entries, members; a teardown only strips. */
    method GroupGrant(a: GroupAction, groups: seq<ResolvedGroup>, managed: seq<ManagedGroup>)
      returns (r: Result<nat, ApplyError>, undo: Undo)
      requires Open() && Tracks([], [a])
      requires GroupGrantPathsOf(a, groups, managed) <= paths
      modifies prov.disk, access`acl
      ensures r.Ok? ==>
        && Open()
        && Accounts(prov.disk.files) == old(Accounts(prov.disk.files))
        && Fragments(prov.disk.files, prov.dir) ==
           Install(old(Fragments(prov.disk.files, prov.dir)), GroupFragment(prov.dir, a.name), GroupRuleFor(a, groups))
        && Groups(prov.disk.files) == MembersStep(old(Groups(prov.disk.files)), groups, managed, a)
        && access.acl == GroupAclStep(old(access.acl), groups, managed, a)
      ensures r.Err? ==> undo.RolledBack? && (undo.Clean() ==> Back())
      ensures r.Err? && undo.outcome == Restored && Back() ==> undo.Clean()
      ensures r.Err? && r.error.CorruptPlan? ==> !TearsDown(a) && FindResolvedGroup(groups, a.name).None?
      ensures r.Err? ==> r.error.CorruptPlan? || r.error.PhaseFailed? || r.error.FileAccessFailed?
    {
      hide SavedPairs, Open, MembersStep, Accounts, Groups, GroupRuleFor;
      undo := Untouched;
      assert a in [a];
      var outcome: RollbackOutcome;
      var group := FindResolvedGroup(groups, a.name);
      if !TearsDown(a) && group.None? {
        outcome, undo := RollBack();
        return Err(CorruptPlan(a.name, outcome)), undo;
      }
      var keep := if TearsDown(a) then [] else KeepOf(groups, a.name);
      var written := ApplyRule(GroupFragment(prov.dir, a.name), GroupRuleFor(a, groups));
      if written.Err? {
        outcome, undo := RollBack();
        return Err(PhaseFailed("group-sudoers", written.error, outcome)), undo;
      }
      var granted := MaterializeAll(Group(a.name), keep);
      if granted.Ok? {
        granted := RevokeAll(Group(a.name), RemovedGroupGrants(a.name, keep, managed));
      }
      if granted.Err? {
        outcome, undo := RollBack();
        return Err(FileAccessFailed(granted.error)), undo;
      }
      assert access.acl == GroupAclStep(old(access.acl), groups, managed, a);
      var record := FindGroup(managed, a.name);
      var current := if record.Some? then record.value.membersAdded else [];
      var wanted := if TearsDown(a) then [] else group.value.members;
      var members := MemberCommands(a.name, wanted, current, true, 0);
      if members.Ok? {
        members := MemberCommands(a.name, current, wanted, false, members.value);
      }
      if members.Err? {
        outcome, undo := RollBack();
        return Err(PhaseFailed("group-member", members.error, outcome)), undo;
      }
      MembersReconcile(old(Groups(prov.disk.files)), groups, managed, a);
      return Ok(members.value + if TearsDown(a) then 0 else 1), undo;
    }

    /** Phase 3c over the whole grant plan. */
    method GroupGrantPhase(actions: seq<GroupAction>, groups: seq<ResolvedGroup>, managed: seq<ManagedGroup>)
      returns (r: Result<nat, ApplyError>, undo: Undo)
      requires Open() && Tracks([], actions)
      requires forall a :: a in actions ==> GroupGrantPathsOf(a, groups, managed) <= paths
      requires forall a :: a in actions && !TearsDown(a) ==> FindResolvedGroup(groups, a.name).Some?
      modifies prov.disk, access`acl
      ensures r.Ok? ==>
        && Open()
        && Accounts(prov.disk.files) == old(Accounts(prov.disk.files))
        && Fragments(prov.disk.files, prov.dir) ==
           GroupFragmentsAfter(old(Fragments(prov.disk.files, prov.dir)), prov.dir, groups, actions)
        && Groups(prov.disk.files) == MembersAfter(old(Groups(prov.disk.files)), groups, managed, actions)
        && access.acl == GroupAclAfter(old(access.acl), groups, managed, actions)
      ensures r.Err? ==> undo.RolledBack? && (undo.Clean() ==> Back())
      ensures r.Err? && undo.outcome == Restored && Back() ==> undo.Clean()
      ensures r.Err? ==> r.error.PhaseFailed? || r.error.FileAccessFailed?
    {
      hide Distinct, Accounts, Groups, MembersStep, GroupAclStep, GroupRuleFor;
      var mutations: nat := 0;
      for i := 0 to |actions|
        invariant Open()
        invariant Accounts(prov.disk.files) == old(Accounts(prov.disk.files))
        invariant Fragments(prov.disk.files, prov.dir) ==
                  GroupFragmentsAfter(old(Fragments(prov.disk.files, prov.dir)), prov.dir, groups, actions[..i])
        invariant Groups(prov.disk.files) == MembersAfter(old(Groups(prov.disk.files)), groups, managed, actions[..i])
        invariant access.acl == GroupAclAfter(old(access.acl), groups, managed, actions[..i])
      {
        assert actions[..i + 1][..i] == actions[..i];
        assert actions[i] in actions;
        r, undo := GroupGrant(actions[i], groups, managed);
        if r.Err? {
          return;
        }
        mutations := mutations + r.value;
      }
      assert actions[..|actions|] == actions;
      return Ok(mutations), Untouched;
    }

    /** Phase 4: groups Census owns and nothing requires any more. */
    method DeleteGroups(actions: seq<GroupAction>) returns (r: Result<nat, ProvisionError>)
      requires Open() && GROUP in targets && GSHADOW in targets
      modifies prov.disk
      ensures Open()
      ensures Accounts(prov.disk.files) == old(Accounts(prov.disk.files))
      ensures Fragments(prov.disk.files, prov.dir) == old(Fragments(prov.disk.files, prov.dir))
      ensures r.Ok? ==> Groups(prov.disk.files) == Without(old(Groups(prov.disk.files)), actions)
    {
      hide Open;
      var n: nat := 0;
      for i := 0 to |actions|
        invariant Open()
        invariant Accounts(prov.disk.files) == old(Accounts(prov.disk.files))
        invariant Fragments(prov.disk.files, prov.dir) == old(Fragments(prov.disk.files, prov.dir))
        invariant Groups(prov.disk.files) == Without(old(Groups(prov.disk.files)), actions[..i])
      {
        assert actions[..i + 1] == actions[..i] + [actions[i]];
        if actions[i].DeleteGroup? {
          var done := DropGroup(actions[i].name);
          if done.Err? {
            return Err(done.error);
          }
          n := n + 1;
        }
        WithoutNext(old(Groups(prov.disk.files)), actions[..i], actions[i]);
      }
      assert actions[..|actions|] == actions;
      return Ok(n);
    }
  }

  /** All of these users added to the group, or all of them removed. */
  function MembersSet(table: GroupTable, group: string, users: set<string>, joins: bool): GroupTable {
    table.(members := if joins then table.members + Memberships(group, users) else table.members - Memberships(group, users))
  }

  lemma NobodyMoves(table: GroupTable, group: string, joins: bool)
    ensures MembersSet(table, group, {}, joins) == table
  {
    assert Memberships(group, {}) == {};
  }

  lemma OthersGrow(members: seq<string>, m: string, skip: seq<string>)
    ensures Others(members + [m], skip) == if m in skip then Others(members, skip) else Others(members, skip) + {m}
  {
  }

  lemma OneMoreMoves(table: GroupTable, group: string, users: set<string>, m: string, joins: bool)
    ensures MembersSet(table, group, users + {m}, joins) == MembersSet(MembersSet(table, group, users, joins), group, {m}, joins)
  {
    assert Memberships(group, users + {m}) == Memberships(group, users) + Memberships(group, {m});
  }

  /** First the new members, then those no longer wanted. */
  lemma MembersReconcile(table: GroupTable, groups: seq<ResolvedGroup>, managed: seq<ManagedGroup>, a: GroupAction)
    ensures var added, wanted := MembersAdded(managed, a.name), MembersWanted(groups, a);
            MembersSet(MembersSet(table, a.name, Others(wanted, added), true), a.name, Others(added, wanted), false)
            == MembersStep(table, groups, managed, a)
  {
  }

  lemma WithoutNext(table: GroupTable, actions: seq<GroupAction>, a: GroupAction)
    ensures Without(table, actions + [a]) == if a.DeleteGroup? then WithoutGroup(Without(table, actions), a.name) else Without(table, actions)
  {
  }

  lemma MakesMore(actions: seq<GroupAction>, a: GroupAction, n: string)
    ensures Makes(actions + [a], n) <==> Makes(actions, n) || (a.CreateGroup? && a.name == n)
  {
    if Makes(actions, n) {
      var i :| 0 <= i < |actions| && actions[i].CreateGroup? && actions[i].name == n;
      assert (actions + [a])[i] == actions[i];
    }
    assert (actions + [a])[|actions|] == a;
  }

  lemma AddedNext(before: GroupTable, mid: GroupTable, after: GroupTable, actions: seq<GroupAction>, a: GroupAction)
    requires Added(before, mid, actions) && a.CreateGroup? && a.name !in mid.gids && a.name in after.gids
    requires after == WithGroup(mid, a.name, after.gids[a.name]) && (a.gid.Some? ==> after.gids[a.name] == a.gid.value)
    ensures Added(before, after, actions + [a])
  {
    forall n ensures Makes(actions + [a], n) <==> Makes(actions, n) || a.name == n { MakesMore(actions, a, n); }
  }

  lemma AddedSkips(before: GroupTable, after: GroupTable, actions: seq<GroupAction>, a: GroupAction)
    requires Added(before, after, actions) && !a.CreateGroup?
    ensures Added(before, after, actions + [a])
  {
    forall n ensures Makes(actions + [a], n) <==> Makes(actions, n) { MakesMore(actions, a, n); }
  }

  /** A GID that was recorded for a created group is the one on the machine. */
  ghost predicate GidsTrue(created: seq<CreatedGroup>, groups: GroupTable) {
    forall c :: c in created && c.gid.Some? && c.name in groups.gids ==> groups.gids[c.name] == c.gid.value
  }

  function CreateNames(actions: seq<GroupAction>): seq<string> {
    if actions == [] then []
    else
      var a := actions[|actions| - 1];
      CreateNames(actions[..|actions| - 1]) + if a.CreateGroup? then [a.name] else []
  }

  /** Exactly the planned group creations, each recorded in order. */
  ghost predicate CreatedFrom(actions: seq<GroupAction>, created: seq<CreatedGroup>) {
    && |created| == |CreateNames(actions)|
    && forall i :: 0 <= i < |created| ==> created[i].name == CreateNames(actions)[i]
  }

  // ----- the run -----

  /** Everything decided before the first mutation. */
  datatype Planned = Planned(
    targets: seq<ResolvedAccount>, groups: seq<ResolvedGroup>,
    actions: seq<Action>, deferred: seq<string>,
    required: seq<Requirement>, groupActions: seq<GroupAction>, grantActions: seq<GroupAction>)

  predicate Touches(actions: seq<Action>, name: string) {
    exists i :: 0 <= i < |actions| && actions[i].Name() == name
  }

  /** The shells of recorded accounts the plan leaves alone. */
  function UntouchedShells(managed: seq<ManagedAccount>, actions: seq<Action>): seq<string> {
    if managed == [] then []
    else
      var m := managed[|managed| - 1];
      UntouchedShells(managed[..|managed| - 1], actions) + if Touches(actions, m.name) then [] else [m.shell]
  }

  predicate Destructive(actions: seq<Action>) {
    exists i :: 0 <= i < |actions| && actions[i].Delete?
  }

  /** Group deletions go ahead unless a deferred account holds the group. */
  function RunGroupActions(inp: Inputs): seq<GroupAction>
    requires inp.targets.Some? && inp.groups.Some?
  {
    var required := RequiredSpec(inp.targets.value, inp.groups.value);
    KeepGroupActions(GroupCreates(required, inp.facts) + GroupDeletes(required, inp.managedGroups), RunDeferred(inp), inp.managed)
  }

  function RunRequired(inp: Inputs): seq<Requirement>
    requires inp.targets.Some? && inp.groups.Some?
  {
    FoldDeferred(RequiredSpec(inp.targets.value, inp.groups.value), RunDeferred(inp), inp.managed)
  }

  ghost predicate AllRoutable(inp: Inputs) {
    && inp.targets.Some? && inp.groups.Some?
    && (forall t :: t in inp.targets.value ==> Routable(t.fileGrants, ACL_CAPABILITIES))
    && (forall g :: g in inp.groups.value ==> Routable(g.fileGrants, ACL_CAPABILITIES))
  }

  /** Exactly the inputs a run accepts; any other is refused before anything is touched. */
  ghost predicate Admissible(inp: Inputs) {
    && inp.trusted
    && AllRoutable(inp)
    && (forall q :: q in RequiredSpec(inp.targets.value, inp.groups.value) ==> ValidGroupName(q.name))
    && Consistent(RequiredSpec(inp.targets.value, inp.groups.value), inp.managedGroups, inp.facts)
    && (inp.live.Some? || !Destructive(PlannedActions(inp)))
    && Gate(RunActions(inp), inp.lockout, UntouchedShells(inp.managed, RunActions(inp)))
  }

  function FirstUnroutable(grants: seq<Grant>): (r: Option<Grant>)
    ensures r.None? <==> Routable(grants, ACL_CAPABILITIES)
    ensures r.Some? ==> r.value in grants && !ShapeSupported(r.value.Shape(), ACL_CAPABILITIES)
  {
    if grants == [] then None
    else if !ShapeSupported(grants[0].Shape(), ACL_CAPABILITIES) then Some(grants[0])
    else FirstUnroutable(grants[1..])
  }

  method GateGrants(inp: Inputs) returns (r: Result<(), ApplyError>)
    requires inp.targets.Some? && inp.groups.Some?
    ensures r.Ok? <==> AllRoutable(inp)
    ensures r.Err? ==> r.error.FileAccessFailed?
  {
    for i := 0 to |inp.targets.value|
      invariant forall k :: 0 <= k < i ==> Routable(inp.targets.value[k].fileGrants, ACL_CAPABILITIES)
    {
      var bad := FirstUnroutable(inp.targets.value[i].fileGrants);
      if bad.Some? {
        return Err(FileAccessFailed(Unsupported(bad.value.path, bad.value.Shape())));
      }
    }
    for i := 0 to |inp.groups.value|
      invariant forall k :: 0 <= k < i ==> Routable(inp.groups.value[k].fileGrants, ACL_CAPABILITIES)
    {
      var bad := FirstUnroutable(inp.groups.value[i].fileGrants);
      if bad.Some? {
        return Err(FileAccessFailed(Unsupported(bad.value.path, bad.value.Shape())));
      }
    }
    return Ok(());
  }

  /** Steps 1 to 6: the band of refusals. */
  method Preflight(inp: Inputs) returns (r: Result<Planned, ApplyError>)
    ensures r.Ok? <==> Admissible(inp)
    ensures r.Err? ==> !r.error.CorruptPlan? && !r.error.PhaseFailed?
    ensures r.Ok? ==> r.value == Planned(inp.targets.value, inp.groups.value, RunActions(inp), RunDeferred(inp),
                                         RunRequired(inp), RunGroupActions(inp), RunGrantActions(inp))
  {
    if !inp.trusted {
      return Err(NotTrusted);
    }
    if inp.targets.None? || inp.groups.None? {
      return Err(ResolveFailed);
    }
    var targets, groups := inp.targets.value, inp.groups.value;
    var gated := GateGrants(inp);
    if gated.Err? {
      return Err(gated.error);
    }
    var planned := Diff(targets, inp.managed);
    var required := RequiredGroups(targets, groups);
    if required.Err? {
      return Err(DeclarationRejected(required.error));
    }
    var groupActions := DiffGroups(required.value, inp.managedGroups, inp.facts);
    if groupActions.Err? {
      return Err(GroupPlanRejected(groupActions.error));
    }
    var grantActions := DiffResolvedGroups(groups, inp.managedGroups);
    if inp.live.None? && Destructive(planned) {
      return Err(SessionRegistryUnreadable);
    }
    var actions, deferred := ReconcileLiveSessions(planned, inp.managed, LiveNow(inp));
    var kept := KeepGroupActions(groupActions.value, deferred, inp.managed);
    var retained := FoldDeferred(required.value, deferred, inp.managed);
    if !Gate(actions, inp.lockout, UntouchedShells(inp.managed, actions)) {
      return Err(WouldLockOut);
    }
    return Ok(Planned(targets, groups, actions, deferred, retained, kept, grantActions));
  }

  /** Baselines of the groups adopted in this run. */
  function Baselines(actions: seq<GroupAction>, managed: seq<ManagedGroup>, facts: GroupFacts, members: map<string, seq<string>>): map<string, GroupBaseline> {
    if actions == [] then map[]
    else
      var a := actions[|actions| - 1];
      var rest := Baselines(actions[..|actions| - 1], managed, facts, members);
      if a.Adopt? && FindGroup(managed, a.name).None?
      then rest[a.name := GroupBaseline(if a.name in facts.gids then Some(facts.gids[a.name]) else None,
                                        if a.name in members then members[a.name] else [])]
      else rest
  }

  /** The files a plan is about: the account database and the fragments of the names in it. */
  function PlanFiles(dir: string, actions: seq<Action>, grants: seq<GroupAction>): set<Path> {
    AuthDb() + (set a | a in actions :: AccountFragment(dir, a.Name())) + (set g | g in grants :: GroupFragment(dir, g.name))
  }

  /** Everything else is as it was, temporaries and the snapshot aside. */
  ghost predicate RestUntouched(f: Tree, g: Tree, snapshot: string, files: set<Path>) {
    forall p: Path :: !Scratch(p) && p.dir != snapshot && p !in files ==> SameAt(f, g, p)
  }

  /** Track every fragment the plan touches, before the snapshot. */
  method TrackFragments(prov: Provisioner, actions: seq<Action>, grants: seq<GroupAction>)
    requires prov.Valid() && prov.backup.targets == AUTH_DB
    modifies prov.backup`targets
    ensures prov.Valid()
    ensures forall p :: p in prov.backup.targets <==> p in PlanFiles(prov.dir, actions, grants)
    ensures forall p :: p in prov.backup.targets ==> !Scratch(p) && (p.dir == "/etc" || p.dir == prov.dir)
  {
    hide AccountFragment, GroupFragment;
    for i := 0 to |actions|
      invariant prov.Valid()
      invariant forall p :: p in prov.backup.targets <==> p in PlanFiles(prov.dir, actions[..i], [])
    {
      assert actions[..i + 1] == actions[..i] + [actions[i]];
      PlanFilesGrow(prov.dir, actions[..i], actions[i], []);
      prov.TrackSudoersBackup(AccountFragment(prov.dir, actions[i].Name()));
    }
    assert actions[..|actions|] == actions;
    for i := 0 to |grants|
      invariant prov.Valid()
      invariant forall p :: p in prov.backup.targets <==> p in PlanFiles(prov.dir, actions, grants[..i])
    {
      assert grants[..i + 1] == grants[..i] + [grants[i]];
      PlanFilesGrowByGroup(prov.dir, actions, grants[..i], grants[i]);
      prov.TrackSudoersBackup(GroupFragment(prov.dir, grants[i].name));
    }
    assert grants[..|grants|] == grants;
    PlanFilesAreNotScratch(prov.dir, actions, grants);
  }

  lemma PlanFilesGrow(dir: string, actions: seq<Action>, a: Action, grants: seq<GroupAction>)
    ensures PlanFiles(dir, actions + [a], grants) == PlanFiles(dir, actions, grants) + {AccountFragment(dir, a.Name())}
  {
    hide AccountFragment, GroupFragment;
  }

  lemma PlanFilesGrowByGroup(dir: string, actions: seq<Action>, grants: seq<GroupAction>, g: GroupAction)
    ensures PlanFiles(dir, actions, grants + [g]) == PlanFiles(dir, actions, grants) + {GroupFragment(dir, g.name)}
  {
    hide AccountFragment, GroupFragment;
  }

  lemma PlanFilesAreNotScratch(dir: string, actions: seq<Action>, grants: seq<GroupAction>)
    ensures forall p :: p in PlanFiles(dir, actions, grants) ==> !Scratch(p) && (p.dir == "/etc" || p.dir == dir)
  {
  }

  /** Paths the phases may write, all inside the file-access snapshot. */
  ghost predicate Covers(plan: Planned, inp: Inputs, paths: set<string>) {
    && (forall a :: a in plan.actions ==> GrantPathsOf(a, inp.managed) <= paths)
    && (forall a :: a in plan.actions && !a.Delete? ==> PathsOf(a.account.fileGrants) <= paths)
    && (forall g :: g in plan.grantActions ==> GroupGrantPathsOf(g, plan.groups, inp.managedGroups) <= paths)
  }

  /** The plan of an admissible input. */
  ghost predicate PlanOf(plan: Planned, inp: Inputs) {
    && inp.targets.Some? && inp.groups.Some?
    && plan == Planned(inp.targets.value, inp.groups.value, RunActions(inp), RunDeferred(inp),
                       RunRequired(inp), RunGroupActions(inp), RunGrantActions(inp))
  }

  lemma ActionsAreTargets(inp: Inputs, a: Action)
    requires inp.targets.Some? && a in RunActions(inp) && !a.Delete?
    ensures a.account in inp.targets.value
  {
    ExecutedContains(PlannedActions(inp), inp.managed, LiveNow(inp), a);
    DiffContains(inp.targets.value, inp.managed, a);
  }

  /** A group action of the grant plan always names a group that was resolved. */
  lemma GrantPlanIsNeverCorrupt(inp: Inputs, a: GroupAction)
    requires inp.groups.Some? && a in RunGrantActions(inp) && !TearsDown(a)
    ensures FindResolvedGroup(inp.groups.value, a.name).Some?
  {
    hide FindGroup, FindResolvedGroup, GrantHeads;
    GrantHeadsContain(inp.groups.value, inp.managedGroups, a);
    GrantTeardownsContain(inp.groups.value, inp.managedGroups, a);
    var i :| 0 <= i < |inp.groups.value| && a in GrantActionFor(inp.groups.value[i], inp.managedGroups);
    assert inp.groups.value[i].name == a.name;
  }

  /** A snapshot that left the targets alone holds copies of them as they are now. */
  lemma CopiesOfNow(was: Tree, now: Tree, targets: seq<Path>, dir: string)
    requires HoldsCopies(was, now, SavedPairs(targets, dir))
    requires forall i :: 0 <= i < |targets| ==> targets[i].dir != dir
    requires forall p: Path :: p.dir != dir ==> SameAt(was, now, p)
    ensures HoldsCopies(now, now, SavedPairs(targets, dir))
  {
    hide CopyName;
  }

  lemma OutsideSnapshot(f: Tree, g: Tree, snapshot: string, dir: string)
    requires forall p: Path :: p.dir != snapshot ==> SameAt(f, g, p)
    requires snapshot != "/etc" && snapshot != dir
    ensures Settled(f, snapshot) == Settled(g, snapshot)
    ensures Accounts(f) == Accounts(g) && Groups(f) == Groups(g)
    ensures Fragments(f, dir) == Fragments(g, dir)
  {
    assert SameAt(f, g, PASSWD) && SameAt(f, g, GROUP);
    forall p ensures p in Settled(f, snapshot) <==> p in Settled(g, snapshot) {
      if p.dir != snapshot { assert SameAt(f, g, p); }
    }
    forall p | p in Settled(f, snapshot) ensures Settled(f, snapshot)[p] == Settled(g, snapshot)[p] {
      assert SameAt(f, g, p);
    }
    forall p ensures p in Fragments(f, dir) <==> p in Fragments(g, dir) {
      if p.dir != snapshot { assert SameAt(f, g, p); }
    }
    forall p | p in Fragments(f, dir) ensures Fragments(f, dir)[p] == Fragments(g, dir)[p] {
      assert SameAt(f, g, p);
    }
  }

  /** Step 7: track, then snapshot both seams. */
  method Begin(plan: Planned, inp: Inputs, prov: Provisioner, access: AclBackend, snapshot: string)
    returns (r: Result<Tx, ApplyError>, undo: Undo)
    requires PlanOf(plan, inp) && prov.managed == inp.managed
    requires prov.Valid() && access.disk == prov.disk && prov.backup.targets == AUTH_DB && access.lastSnapshot == None
    requires snapshot != "/etc" && snapshot != prov.dir && forall p :: p in prov.disk.files ==> p.dir != snapshot
    modifies prov.disk, prov.backup, access`lastSnapshot
    ensures r.Ok? ==>
      && fresh(r.value) && r.value.Open() && r.value.prov == prov && r.value.access == access
      && r.value.Tracks(plan.actions, plan.grantActions) && Covers(plan, inp, r.value.paths)
      && (forall p :: p in r.value.targets ==> p in PlanFiles(prov.dir, plan.actions, plan.grantActions))
      && RestUntouched(old(prov.disk.files), prov.disk.files, snapshot, {})
      && r.value.snapshot == snapshot && r.value.baseAcl == old(access.acl) && r.value.base == prov.disk.files
      && Settled(prov.disk.files, snapshot) == Settled(old(prov.disk.files), snapshot)
      && Accounts(prov.disk.files) == Accounts(old(prov.disk.files)) && Groups(prov.disk.files) == Groups(old(prov.disk.files))
      && Fragments(prov.disk.files, prov.dir) == Fragments(old(prov.disk.files), prov.dir)
    ensures r.Err? && undo.Clean() ==> Settled(prov.disk.files, snapshot) == Settled(old(prov.disk.files), snapshot)
    ensures r.Err? && !undo.Clean() && undo.outcome == Restored ==> Settled(prov.disk.files, snapshot) != Settled(old(prov.disk.files), snapshot)
    ensures r.Err? ==> !r.error.CorruptPlan?
  {
    hide Settled, Accounts, Groups, Fragments, Covers, PlanFiles, CopyName;
    TrackFragments(prov, plan.actions, plan.grantActions);
    PlanFilesHold(prov.dir, plan.actions, plan.grantActions);
    var taken := prov.Snapshot(snapshot);
    OutsideSnapshot(old(prov.disk.files), prov.disk.files, snapshot, prov.dir);
    if taken.Err? {
      return Err(PhaseFailed("snapshot", taken.error, Restored)), Untouched;
    }
    CopiesOfNow(old(prov.disk.files), prov.disk.files, prov.backup.targets, snapshot);
    var paths := PathsToSave(plan, inp);
    if paths != {} {
      var dumped := access.Snapshot(paths);
      if dumped.Err? {
        undo := DropSnapshot(prov, snapshot);
        return Err(FileAccessFailed(dumped.error)), undo;
      }
    }
    var tx := new Tx(prov, access, paths);
    return Ok(tx), Untouched;
  }

  /** Every path the file-access phases may touch. */
  method PathsToSave(plan: Planned, inp: Inputs) returns (paths: set<string>)
    requires PlanOf(plan, inp)
    ensures Covers(plan, inp, paths)
  {
    hide RunActions, RunGrantActions, RunRequired, RunGroupActions;
    var mine := FileAccessTouchedPaths(plan.actions, plan.targets, inp.managed);
    var theirs := GroupFileAccessTouchedPaths(plan.grantActions, plan.groups, inp.managedGroups);
    paths := mine + theirs;
    forall a | a in plan.actions && !a.Delete? ensures PathsOf(a.account.fileGrants) <= paths {
      ActionsAreTargets(inp, a);
    }
  }

  /** The ACL dump failed: restore the files just copied. */
  method DropSnapshot(prov: Provisioner, snapshot: string) returns (undo: Undo)
    requires prov.Valid() && prov.backup.saved == SavedPairs(prov.backup.targets, snapshot)
    requires forall i :: 0 <= i < |prov.backup.targets| ==> prov.backup.targets[i].dir != snapshot && !Scratch(prov.backup.targets[i])
    requires HoldsCopies(prov.disk.files, prov.disk.files, prov.backup.saved)
    modifies prov.disk
    ensures undo.RolledBack?
    ensures undo.Clean() ==> Settled(prov.disk.files, snapshot) == Settled(old(prov.disk.files), snapshot)
    ensures !undo.Clean() && undo.outcome == Restored ==> Settled(prov.disk.files, snapshot) != Settled(old(prov.disk.files), snapshot)
  {
    hide CopyName, Settled;
    ghost var base := prov.disk.files;
    var restored, stuck := prov.Restore();
    undo := RolledBack(if restored.Ok? then Restored else RollbackFailed, stuck);
    if undo.Clean() {
      RestoreUndoes(base, base, prov.backup.targets, snapshot);
    } else if stuck != {} {
      ghost var p :| p in stuck;
      StuckIsNotBack(base, base, prov.disk.files, prov.backup.targets, snapshot, p);
    }
  }

  lemma PlanFilesHold(dir: string, actions: seq<Action>, grants: seq<GroupAction>)
    ensures forall p :: p in AuthDb() ==> p in PlanFiles(dir, actions, grants)
    ensures forall a :: a in actions ==> AccountFragment(dir, a.Name()) in PlanFiles(dir, actions, grants)
    ensures forall g :: g in grants ==> GroupFragment(dir, g.name) in PlanFiles(dir, actions, grants)
  {
  }

  /** Step 8: the phases, in order; any failure rolls both seams back. */
  method Execute(tx: Tx, plan: Planned, inp: Inputs) returns (r: Result<(seq<CreatedGroup>, nat), ApplyError>, undo: Undo)
    requires PlanOf(plan, inp) && tx.prov.managed == inp.managed
    requires tx.Open() && tx.Tracks(plan.actions, plan.grantActions) && Covers(plan, inp, tx.paths)
    modifies tx.prov.disk, tx.access`acl
    ensures r.Ok? ==>
      && tx.Open()
      && Applied(inp, tx.prov.dir, Machine(old(tx.prov.disk.files), old(tx.access.acl)), Machine(tx.prov.disk.files, tx.access.acl))
      && CreatedFrom(plan.groupActions, r.value.0) && GidsTrue(r.value.0, Groups(tx.prov.disk.files))
    ensures r.Err? && undo.Clean() ==> tx.Back()
    ensures r.Err? && undo.RolledBack? && undo.outcome == Restored && tx.Back() ==> undo.Clean()
    ensures r.Err? ==> undo.RolledBack? && !r.error.CorruptPlan?
  {
    var outcome: RollbackOutcome;
    var created := tx.CreateGroups(plan.groupActions);
    if created.Err? {
      outcome, undo := tx.RollBack();
      return Err(PhaseFailed("create-group", created.error, outcome)), undo;
    }
    ghost var made := Groups(tx.prov.disk.files);
    var accounts := tx.AccountPhase(plan.actions);
    if accounts.Err? {
      outcome, undo := tx.RollBack();
      return Err(PhaseFailed("account", accounts.error, outcome)), undo;
    }
    var granted := tx.GrantPhase(plan.actions);
    if granted.Ok? {
      granted := tx.DeletePhase(plan.actions);
    }
    if granted.Err? {
      outcome, undo := tx.RollBack();
      return Err(FileAccessFailed(granted.error)), undo;
    }
    forall a | a in plan.grantActions && !TearsDown(a) ensures FindResolvedGroup(plan.groups, a.name).Some? {
      GrantPlanIsNeverCorrupt(inp, a);
    }
    var grants;
    grants, undo := tx.GroupGrantPhase(plan.grantActions, plan.groups, inp.managedGroups);
    if grants.Err? {
      return Err(grants.error), undo;
    }
    var deleted := tx.DeleteGroups(plan.groupActions);
    if deleted.Err? {
      outcome, undo := tx.RollBack();
      return Err(PhaseFailed("delete-group", deleted.error, outcome)), undo;
    }
    assert GroupsApplied(inp, old(Groups(tx.prov.disk.files)), Groups(tx.prov.disk.files));
    return Ok((created.value, |created.value| + |plan.actions| + grants.value + deleted.value)), undo;
  }

  predicate Idle(inp: Inputs)
    requires inp.targets.Some? && inp.groups.Some?
  {
    RunActions(inp) == [] && RunGroupActions(inp) == [] && RunGrantActions(inp) == []
  }

  function GroupRecords(inp: Inputs, created: seq<CreatedGroup>): seq<ManagedGroup>
    requires inp.targets.Some? && inp.groups.Some?
  {
    ManagedGroupsSpec(RunRequired(inp), inp.groups.value, inp.managedGroups, created,
                      Baselines(RunGrantActions(inp), inp.managedGroups, inp.facts, inp.members), inp.version, inp.facts)
  }

  /** What the registry is told after a successful run. */
  ghost predicate Reported(inp: Inputs, report: Report)
    requires inp.targets.Some? && inp.groups.Some?
  {
    && report.managed == Registry(inp)
    && report.deferred == RunDeferred(inp)
    && (report.registryWritten <==> !Idle(inp) || RunDeferred(inp) != [])
    && (Idle(inp) ==> report.mutations == 0)
    && exists created :: CreatedFrom(RunGroupActions(inp), created) && report.groupRecords == GroupRecords(inp, created)
  }

  /** The group records come from a list of created groups whose GIDs are the ones on the machine. */
  ghost predicate RecordsRead(inp: Inputs, report: Report, groups: GroupTable)
    requires inp.targets.Some? && inp.groups.Some?
  {
    exists created :: CreatedFrom(RunGroupActions(inp), created) && GidsTrue(created, groups) && report.groupRecords == GroupRecords(inp, created)
  }

  lemma NoGroupsMove(inp: Inputs, groups: GroupTable)
    requires inp.targets.Some? && inp.groups.Some? && Idle(inp)
    ensures GroupsApplied(inp, groups, groups)
  {
    hide RunActions, RunGrantActions, RunGroupActions;
    assert Added(groups, groups, []);
    assert Without(groups, []) == groups;
    assert GroupsAfter(groups, inp.managed, []) == Some(groups);
    assert MembersAfter(groups, inp.groups.value, inp.managedGroups, []) == groups;
  }

  /** The registry contents of a successful run. */
  method MakeReport(plan: Planned, inp: Inputs, created: seq<CreatedGroup>, mutations: nat) returns (report: Report)
    requires PlanOf(plan, inp) && CreatedFrom(plan.groupActions, created)
    requires Idle(inp) ==> mutations == 0
    ensures Reported(inp, report)
    ensures report.groupRecords == GroupRecords(inp, created)
  {
    var managed := BuildManagedSet(plan.targets, inp.version, inp.managed, plan.deferred);
    var baselines := Baselines(plan.grantActions, inp.managedGroups, inp.facts, inp.members);
    var records := BuildManagedGroups(plan.required, plan.groups, inp.managedGroups, created, baselines, inp.version, inp.facts);
    var idle := plan.actions == [] && plan.groupActions == [] && plan.grantActions == [];
    return Report(managed, records, mutations, !idle || plan.deferred != [], plan.deferred);
  }

  function RunFiles(inp: Inputs, dir: string): set<Path>
    requires inp.targets.Some? && inp.groups.Some?
  {
    PlanFiles(dir, RunActions(inp), RunGrantActions(inp))
  }

  lemma UntouchedBeyond(f: Tree, g: Tree, tracked: seq<Path>, snapshot: string, files: set<Path>)
    requires Beyond(f, tracked) == Beyond(g, tracked) && forall p :: p in tracked ==> p in files
    ensures RestUntouched(f, g, snapshot, files)
  {
    forall p: Path | !Scratch(p) && p.dir != snapshot && p !in files ensures SameAt(f, g, p) {
      assert p in Beyond(f, tracked) <==> p in f;
      assert p in Beyond(g, tracked) <==> p in g;
    }
  }

  /** Steps 7 to 9 of a run with work to do. */
  method Transact(plan: Planned, inp: Inputs, prov: Provisioner, access: AclBackend, snapshot: string)
    returns (r: Result<Report, ApplyError>, undo: Undo)
    requires PlanOf(plan, inp) && prov.managed == inp.managed && !Idle(inp)
    requires prov.Valid() && access.disk == prov.disk && prov.backup.targets == AUTH_DB && access.lastSnapshot == None
    requires snapshot != "/etc" && snapshot != prov.dir && forall p :: p in prov.disk.files ==> p.dir != snapshot
    modifies prov.disk, prov.backup, access
    ensures r.Ok? ==>
      && Applied(inp, prov.dir, Machine(old(prov.disk.files), old(access.acl)), Machine(prov.disk.files, access.acl))
      && Reported(inp, r.value) && RecordsRead(inp, r.value, Groups(prov.disk.files))
      && RestUntouched(old(prov.disk.files), prov.disk.files, snapshot, RunFiles(inp, prov.dir))
      && prov.Valid() && (prov.backup.snapshotDir == None || prov.backup.snapshotDir == Some(snapshot))
    ensures r.Err? && undo.Clean() ==>
      && Settled(prov.disk.files, snapshot) == Settled(old(prov.disk.files), snapshot)
      && access.acl == old(access.acl)
    ensures r.Err? && !undo.Clean() && undo.outcome == Restored ==>
      Settled(prov.disk.files, snapshot) != Settled(old(prov.disk.files), snapshot) || access.acl != old(access.acl)
    ensures r.Err? ==> !r.error.CorruptPlan?
  {
    var tx;
    tx, undo := Begin(plan, inp, prov, access, snapshot);
    if tx.Err? {
      return Err(tx.error), undo;
    }
    var done;
    done, undo := Execute(tx.value, plan, inp);
    if done.Err? {
      return Err(done.error), undo;
    }
    UntouchedBeyond(tx.value.base, prov.disk.files, tx.value.targets, snapshot, RunFiles(inp, prov.dir));
    var report := MakeReport(plan, inp, done.value.0, done.value.1);
    return Ok(report), undo;
  }

  /**
   One apply. Whatever call fails and however much of its own footprint it has
   changed by then, a run either reports success with exactly the planned
   effect, or leaves every file and every ACL entry as it found them, as long
   as both restores went through.
   */
  method Run(inp: Inputs, prov: Provisioner, access: AclBackend, snapshot: string)
    returns (r: Result<Report, ApplyError>, undo: Undo)
    requires prov.managed == inp.managed
    requires prov.Valid() && access.disk == prov.disk && prov.backup.targets == AUTH_DB
    requires prov.backup.snapshotDir == None && access.lastSnapshot == None
    requires snapshot != "/etc" && snapshot != prov.dir && forall p :: p in prov.disk.files ==> p.dir != snapshot
    modifies prov.disk, prov.backup, access
    ensures r.Ok? ==>
      && Admissible(inp)
      && Applied(inp, prov.dir, Machine(old(prov.disk.files), old(access.acl)), Machine(prov.disk.files, access.acl))
      && Reported(inp, r.value) && RecordsRead(inp, r.value, Groups(prov.disk.files))
      && RestUntouched(old(prov.disk.files), prov.disk.files, snapshot, RunFiles(inp, prov.dir))
      && prov.Valid() && (prov.backup.snapshotDir == None || prov.backup.snapshotDir == Some(snapshot))
    ensures r.Err? && undo.Clean() ==>
      && Settled(prov.disk.files, snapshot) == Settled(old(prov.disk.files), snapshot)
      && access.acl == old(access.acl)
    ensures r.Err? && !undo.Clean() && undo.outcome == Restored ==>
      Settled(prov.disk.files, snapshot) != Settled(old(prov.disk.files), snapshot) || access.acl != old(access.acl)
    ensures !Admissible(inp) ==> r.Err? && undo.Untouched? && prov.disk.files == old(prov.disk.files) && access.acl == old(access.acl)
    ensures r.Err? ==> !r.error.CorruptPlan?
  {
    var planned := Preflight(inp);
    if planned.Err? {
      return Err(planned.error), Untouched;
    }
    var plan := planned.value;
    if plan.actions == [] && plan.groupActions == [] && plan.grantActions == [] {
      NoGroupsMove(inp, Groups(prov.disk.files));
      var report := MakeReport(plan, inp, [], 0);
      return Ok(report), Untouched;
    }
    r, undo := Transact(plan, inp, prov, access, snapshot);
  }
}
