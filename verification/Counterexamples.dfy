/**
 Runs in which a promise fails, for every choice of the names in them. Each
 lemma exhibits the inputs and the machines before and after, and shows that
 they are a run; the conditions proved elsewhere say exactly which runs behave
 like them.
 */
module Counterexamples {
  import opened Outcomes
  import opened Records
  import opened Plan
  import opened Lockout
  import opened Paths
  import opened DiskModel
  import opened ProvisionerModel
  import opened FileAccess
  import opened ApplyPlan
  import opened DeclarationModel
  import opened Transaction
  import opened Effects
  import opened Ledger
  import opened LostRegistry
  import opened GroupLedger
  import opened Nesting
  import opened MembershipLedger

  /** A trusted run over the given declaration and registry, the groups as they are, with nobody logged in. */
  function Setting(targets: seq<ResolvedAccount>, groups: seq<ResolvedGroup>, managed: seq<ManagedAccount>, managedGroups: seq<ManagedGroup>, table: GroupTable): Inputs {
    Inputs(true, Some(targets), Some(groups), 1, managed, managedGroups, GroupFacts(table.gids, map[]), map[], Some(NO_SESSIONS), Context(true, false))
  }

  /** A machine whose only files are the account and the group table. */
  function Bare(accounts: map<string, PwEntry>, table: GroupTable, acl: Acl): Machine {
    Machine(map[PASSWD := Passwd(accounts), GROUP := GroupFile(table)], acl)
  }

  lemma BareHolds(accounts: map<string, PwEntry>, table: GroupTable, acl: Acl, dir: string)
    requires dir != "/etc"
    ensures var files := Bare(accounts, table, acl).files;
            Accounts(files) == accounts && Groups(files) == table && Fragments(files, dir) == map[]
  {
  }

  function Row(t: ResolvedAccount): map<string, PwEntry> { map[t.name := PwEntry(t.uid, t.shell)] }

  // ----- the plans of these runs -----

  lemma CreatesOne(t: ResolvedAccount, groups: seq<ResolvedGroup>, table: GroupTable)
    ensures RunActions(Setting([t], groups, [], [], table)) == [Create(t)]
  {
    assert [t][..0] == [] && [Create(t)][..0] == [];
    assert Changes([t], []) == Changes([], []) + ActionFor(t, []);
    assert DiffSpec([t], []) == [Create(t)];
    assert Executed([Create(t)], [], NO_SESSIONS) == Executed([], [], NO_SESSIONS) + [Create(t)];
  }

  lemma AdoptsOne(g: ResolvedGroup, targets: seq<ResolvedAccount>, table: GroupTable)
    requires g.provenance == Adopted
    ensures RunGrantActions(Setting(targets, [g], [], [], table)) == [Adopt(g.name)]
  {
    assert [g][..0] == [];
    assert GrantHeads([g], []) == GrantHeads([], []) + GrantActionFor(g, []);
    assert GrantTeardowns([g], []) == [];
  }

  lemma AccountCreated(t: ResolvedAccount)
    ensures AccountsAfter(map[], [], [Create(t)]) == Some(Row(t))
  {
    assert [Create(t)][..0] == [];
    assert AccountsAfter(map[], [], []) == Some(map[]);
  }

  lemma GrantlessAcl(t: ResolvedAccount, accounts: map<string, PwEntry>, acl: Acl, managed: seq<ManagedAccount>)
    requires t.fileGrants == [] && FindAccount(managed, t.name).None?
    ensures AclAfter(acl, accounts, managed, [Create(t)]) == Some(acl)
    ensures AclAfterDeletes(acl, managed, [Create(t)]) == acl
  {
    assert [Create(t)][..0] == [];
    assert AclAfter(acl, accounts, managed, []) == Some(acl);
    assert AclAfterDeletes(acl, managed, []) == acl;
  }

  /** Every required group is there and every recorded one is required: no group is made or deleted. */
  lemma NoGroupWork(inp: Inputs)
    requires inp.targets.Some? && inp.groups.Some?
    requires forall n :: Required(RequiredSpec(inp.targets.value, inp.groups.value), n) ==> n in inp.facts.gids
    requires forall p :: p in inp.managedGroups ==> Required(RequiredSpec(inp.targets.value, inp.groups.value), p.name)
    ensures RunGroupActions(inp) == []
  {
    hide RequiredSpec;
    var required := RequiredSpec(inp.targets.value, inp.groups.value);
    if RunGroupActions(inp) != [] {
      var a := RunGroupActions(inp)[0];
      KeptGroupActions(GroupCreates(required, inp.facts) + GroupDeletes(required, inp.managedGroups), RunDeferred(inp), inp.managed, a);
      GroupCreatesContain(required, inp.facts, a);
      GroupDeletesContain(required, inp.managedGroups, a);
    }
  }

  /** When no action moves anyone, the group table stays. */
  lemma TableStays(inp: Inputs, table: GroupTable)
    requires inp.targets.Some? && inp.groups.Some? && RunGroupActions(inp) == []
    requires GroupsAfter(table, inp.managed, RunActions(inp)) == Some(table)
    requires MembersAfter(table, inp.groups.value, inp.managedGroups, RunGrantActions(inp)) == table
    ensures GroupsApplied(inp, table, table)
  {
    hide RunActions, RunGrantActions, RunGroupActions;
    assert Added(table, table, []);
    assert Without(table, []) == table;
  }

  lemma JoinsNothing(t: ResolvedAccount, table: GroupTable, managed: seq<ManagedAccount>)
    requires t.groups == []
    ensures GroupsAfter(table, managed, [Create(t)]) == Some(table)
  {
    assert [Create(t)][..0] == [];
    assert GroupsAfter(table, managed, []) == Some(table);
    assert Enroll(table, t.name, []).members == table.members;
  }

  lemma NobodyWanted(table: GroupTable, groups: seq<ResolvedGroup>, managed: seq<ManagedGroup>, a: GroupAction)
    requires MembersAdded(managed, a.name) == [] && MembersWanted(groups, a) == []
    ensures MembersAfter(table, groups, managed, [a]) == table
  {
    assert [a][..0] == [];
    assert MembersAfter(table, groups, managed, []) == table;
    assert Memberships(a.name, Others([], [])) == {};
  }

  // ----- a role and a group that share a fragment -----

  /** A role called `grp-` plus a group, with a sudo command. */
  function Shadowing(group: string, uid: nat, command: SudoCommand): ResolvedAccount {
    ResolvedAccount("grp-" + group, uid, "/bin/sh", [], None, [command], [])
  }

  /** A group that exists already and is declared without any grant. */
  function Adoptee(group: string): ResolvedGroup {
    ResolvedGroup(group, None, Adopted, [], [], [])
  }

  lemma FragmentComesAndGoes(dir: string, group: string, uid: nat, command: SudoCommand)
    ensures var t := Shadowing(group, uid, command);
            GroupFragmentsAfter(FragmentsAfter(map[], dir, [Create(t)]), dir, [Adoptee(group)], [Adopt(group)]) == map[]
  {
    var t := Shadowing(group, uid, command);
    assert [Create(t)][..0] == [] && [Adopt(group)][..0] == [];
    FragmentsCollideIff(dir, t.name, group);
    var p := AccountFragment(dir, t.name);
    assert FragmentsAfter(map[], dir, [Create(t)]) == Install(map[], p, RuleFor(Create(t)));
    assert GroupRuleFor(Adopt(group), [Adoptee(group)]) == None;
  }

  lemma AdoptWritesNoEntry(acl: Acl, group: string)
    ensures GroupAclAfter(acl, [Adoptee(group)], [], [Adopt(group)]) == acl
  {
    assert [Adopt(group)][..0] == [];
    assert GroupAclAfter(acl, [Adoptee(group)], [], []) == acl;
    assert KeepOf([Adoptee(group)], group) == [];
  }

  /** The run creates the account with its sudo rule, and clears the rule again with the group's. */
  lemma CrossedRunLosesARule(dir: string, group: string, uid: nat, command: SudoCommand, table: GroupTable)
    requires dir != "/etc" && group in table.gids
    ensures var t := Shadowing(group, uid, command);
            var inp := Setting([t], [Adoptee(group)], [], [], table);
            var before, after := Bare(map[], table, Acl([], map[])), Bare(Row(t), table, Acl([], map[]));
            Step(inp, dir, {uid}, before, after) && !FragmentsApart(inp) && !Balanced(Registry(inp), after, dir, {uid})
  {
    hide RunActions, RunGrantActions, RunGroupActions, Balanced;
    var t := Shadowing(group, uid, command);
    var inp, none := Setting([t], [Adoptee(group)], [], [], table), Acl([], map[]);
    var before, after := Bare(map[], table, none), Bare(Row(t), table, none);
    CrossedRun(dir, group, uid, command, table);
    var m := RecordFor(t, 1, []);
    NewRegistryHolds(inp, m);
    AdoptsOne(Adoptee(group), [t], table);
    assert m in Registry(inp) && Adopt(group) in RunGrantActions(inp) && m.name == "grp-" + group;
    RunKeepsLedgerIff(inp, dir, {uid}, before, after);
  }

  lemma CrossedGroups(group: string, uid: nat, command: SudoCommand, table: GroupTable)
    requires group in table.gids
    ensures GroupsApplied(Setting([Shadowing(group, uid, command)], [Adoptee(group)], [], [], table), table, table)
  {
    hide RunActions, RunGrantActions, RunGroupActions, GroupsApplied;
    var t, g := Shadowing(group, uid, command), Adoptee(group);
    var inp := Setting([t], [g], [], [], table);
    CreatesOne(t, [g], table);
    AdoptsOne(g, [t], table);
    forall n | Required(RequiredSpec([t], [g]), n) ensures n in table.gids { RequiredExactly([t], [g], n); }
    NoGroupWork(inp);
    JoinsNothing(t, table, []);
    NobodyWanted(table, [g], [], Adopt(group));
    TableStays(inp, table);
  }

  /** And the run is one Census accepts, whenever the group name is valid. */
  lemma CrossedRunIsAdmitted(group: string, uid: nat, command: SudoCommand, table: GroupTable)
    requires ValidGroupName(group)
    ensures Admissible(Setting([Shadowing(group, uid, command)], [Adoptee(group)], [], [], table))
  {
    hide ValidGroupName;
    var t, g := Shadowing(group, uid, command), Adoptee(group);
    assert [t][..0] == [] && [g][..0] == [];
    assert RequiredSpec([t], [g]) == [Requirement(group, None)] by {
      assert RequireJoined([t]) == RequireAll(RequireJoined([]), []);
      assert PinDeclared([], [g]) == Pin(PinDeclared([], []), Requirement(group, None));
    }
  }

  lemma CrossedRun(dir: string, group: string, uid: nat, command: SudoCommand, table: GroupTable)
    requires dir != "/etc" && group in table.gids
    ensures var t := Shadowing(group, uid, command);
            var inp := Setting([t], [Adoptee(group)], [], [], table);
            Step(inp, dir, {uid}, Bare(map[], table, Acl([], map[])), Bare(Row(t), table, Acl([], map[])))
  {
    hide RunActions, RunGrantActions, RunGroupActions, GroupsApplied, FragmentsAfter, GroupFragmentsAfter, GroupAclAfter, AclAfter, AclAfterDeletes, AccountsAfter;
    var t := Shadowing(group, uid, command);
    var inp, none := Setting([t], [Adoptee(group)], [], [], table), Acl([], map[]);
    var before, after := Bare(map[], table, none), Bare(Row(t), table, none);
    BareHolds(map[], table, none, dir);
    BareHolds(Row(t), table, none, dir);
    CreatesOne(t, [Adoptee(group)], table);
    AdoptsOne(Adoptee(group), [t], table);
    AccountCreated(t);
    FragmentComesAndGoes(dir, group, uid, command);
    GrantlessAcl(t, Accounts(after.files), none, []);
    AdoptWritesNoEntry(none, group);
    CrossedGroups(group, uid, command, table);
    assert Balanced([], before, dir, {uid});
    assert Applied(inp, dir, before, after);
  }

  // ----- grants listed in another order -----

  lemma CreatesSecond(t: ResolvedAccount, b: ResolvedAccount, m: ManagedAccount, table: GroupTable)
    requires t.name == m.name != b.name && InSync(t, m)
    ensures RunActions(Setting([t, b], [], [m], [], table)) == [Create(b)]
  {
    assert [t, b][..1] == [t] && [t][..0] == [] && [m][..0] == [] && [Create(b)][..0] == [];
    assert Declared([t, b], m.name) by { assert [t, b][0].name == m.name; }
    assert Changes([t], [m]) == Changes([], [m]) + ActionFor(t, [m]);
    assert Changes([t, b], [m]) == Changes([t], [m]) + ActionFor(b, [m]);
    assert Drops([t, b], [m]) == Drops([t, b], []) + [];
    assert DiffSpec([t, b], [m]) == [Create(b)];
    assert Executed([Create(b)], [m], NO_SESSIONS) == Executed([], [m], NO_SESSIONS) + [Create(b)];
  }

  function Holding(name: string, uid: nat, grants: seq<Grant>): ResolvedAccount {
    ResolvedAccount(name, uid, "/bin/sh", [], None, [], grants)
  }

  /** The entries of one holder, written from scratch. */
  function Written(tree: seq<string>, who: Holder, grants: seq<Grant>): Acl {
    SetGrants(Acl(tree, map[]), who, grants)
  }

  lemma WrittenHolds(tree: seq<string>, who: Holder, grants: seq<Grant>, k: AclKey)
    ensures EntryOf(Written(tree, who, grants), k) == if k.holder == who then Asked(tree, grants, k.path) else None
  {
    SetGrantsAt(Acl(tree, map[]), who, grants, k);
  }

  lemma BalancedStart(t: ResolvedAccount, m: ManagedAccount, table: GroupTable, tree: seq<string>, dir: string, owned: set<nat>)
    requires dir != "/etc" && m == Record(t, 1) && RecordRule(m).None? && m.uid in owned
    ensures Balanced([m], Bare(Row(t), table, Written(tree, ByUid(t.uid), t.fileGrants)), dir, owned)
  {
    hide Asked;
    var acl := Written(tree, ByUid(t.uid), t.fileGrants);
    BareHolds(Row(t), table, acl, dir);
    forall k: AclKey ensures EntryOf(acl, k) == if k.holder == ByUid(t.uid) then Asked(tree, t.fileGrants, k.path) else None {
      WrittenHolds(tree, ByUid(t.uid), t.fileGrants, k);
    }
    assert [m][0].name == m.name && [m][0].uid == m.uid;
    assert Recorded([m], m.name) && RecordedUid([m], m.uid);
  }

  lemma SecondAccount(t: ResolvedAccount, b: ResolvedAccount, managed: seq<ManagedAccount>)
    requires t.name != b.name && t.uid != b.uid
    ensures AccountsAfter(Row(t), managed, [Create(b)]) == Some(Row(t)[b.name := PwEntry(b.uid, b.shell)])
  {
    assert [Create(b)][..0] == [];
    assert AccountsAfter(Row(t), managed, []) == Some(Row(t));
  }

  lemma NoFragments(dir: string, t: ResolvedAccount)
    requires TargetRule(t).None?
    ensures FragmentsAfter(map[], dir, [Create(t)]) == map[]
  {
    assert [Create(t)][..0] == [];
  }

  /**
   An account holds two nested grants with different bits and is declared with the same two the other way
   round. The plan calls it in sync and writes nothing, and the new registry claims the other reading.
   */
  lemma ReorderedGrantsGoStale(dir: string, a: string, uid: nat, b: string, other: nat, wide: Grant, deep: Grant, tree: seq<string>, table: GroupTable)
    requires dir != "/etc" && a != b && uid != other
    requires AtOrUnder(wide.path, deep.path) && PermFor(wide.access) != PermFor(deep.access) && deep.path in tree
    ensures var was, t, n := Holding(a, uid, [wide, deep]), Holding(a, uid, [deep, wide]), Holding(b, other, []);
            var inp := Setting([t, n], [], [Record(was, 1)], [], table);
            var acl := Written(tree, ByUid(uid), [wide, deep]);
            var before, after := Bare(Row(was), table, acl), Bare(Row(was)[b := PwEntry(other, "/bin/sh")], table, acl);
            Step(inp, dir, {uid, other}, before, after) && !OrderKept(inp, tree) && !Balanced(Registry(inp), after, dir, {uid, other})
  {
    hide AtOrUnder, PermFor, Step, Written, Row, Bare, OrderKept, Balanced, Registry;
    var was, t, n := Holding(a, uid, [wide, deep]), Holding(a, uid, [deep, wide]), Holding(b, other, []);
    var inp := Setting([t, n], [], [Record(was, 1)], [], table);
    var acl := Written(tree, ByUid(uid), [wide, deep]);
    Swapped(wide, deep);
    ReorderedRun(dir, t, n, was, tree, table);
    OrderIsNotKept(a, uid, n, wide, deep, tree, table);
    assert Bare(Row(was), table, acl).acl.tree == tree by { BareAcl(Row(was), table, tree, uid, [wide, deep]); }
    RunKeepsLedgerIff(inp, dir, {uid, other}, Bare(Row(was), table, acl), Bare(Row(was)[b := PwEntry(other, "/bin/sh")], table, acl));
  }

  lemma BareAcl(accounts: map<string, PwEntry>, table: GroupTable, tree: seq<string>, uid: nat, grants: seq<Grant>)
    ensures Bare(accounts, table, Written(tree, ByUid(uid), grants)).acl.tree == tree
  {
  }

  lemma OrderIsNotKept(a: string, uid: nat, n: ResolvedAccount, wide: Grant, deep: Grant, tree: seq<string>, table: GroupTable)
    requires AtOrUnder(wide.path, deep.path) && PermFor(wide.access) != PermFor(deep.access) && deep.path in tree
    ensures var was, t := Holding(a, uid, [wide, deep]), Holding(a, uid, [deep, wide]);
            !OrderKept(Setting([t, n], [], [Record(was, 1)], [], table), tree)
  {
    hide AtOrUnder, PermFor, GrantedPerm, WrittenGrants, InSync;
    var was, t := Holding(a, uid, [wide, deep]), Holding(a, uid, [deep, wide]);
    var inp := Setting([t, n], [], [Record(was, 1)], [], table);
    assert WrittenGrants(inp, t) == [wide, deep] by { Swapped(wide, deep); InSyncWrites(inp, t, Record(was, 1)); }
    LastTwo([], wide, deep);
    assert [] + [wide, deep] == [wide, deep] && [] + [deep, wide] == [deep, wide];
    assert Asked(tree, WrittenGrants(inp, t), deep.path) != Asked(tree, t.fileGrants, deep.path);
    assert !SameMeaning(inp, tree, t);
    assert t == inp.targets.value[0];
  }

  lemma InSyncWrites(inp: Inputs, t: ResolvedAccount, m: ManagedAccount)
    requires inp.managed == [m] && m.name == t.name
    requires m.uid == t.uid && m.shell == t.shell && m.groups == t.groups && m.sudoRole == t.sudoRole && m.sudoCommands == t.sudoCommands
    requires SameItems(m.fileGrants, t.fileGrants)
    ensures WrittenGrants(inp, t) == m.fileGrants
  {
  }

  lemma Swapped(g: Grant, h: Grant)
    ensures SameItems([g, h], [h, g])
  {
    assert multiset([g, h]) == multiset{g, h} == multiset([h, g]);
  }

  lemma ReorderedRun(dir: string, t: ResolvedAccount, n: ResolvedAccount, was: ResolvedAccount, tree: seq<string>, table: GroupTable)
    requires dir != "/etc" && t.name == was.name != n.name && t.uid == was.uid != n.uid && t.fileGrants != [] && n.fileGrants == []
    requires t.groups == [] && n.groups == []
    requires InSync(t, Record(was, 1)) && TargetRule(was).None? && TargetRule(n).None?
    ensures var acl := Written(tree, ByUid(was.uid), was.fileGrants);
            Step(Setting([t, n], [], [Record(was, 1)], [], table), dir, {t.uid, n.uid},
                 Bare(Row(was), table, acl), Bare(Row(was)[n.name := PwEntry(n.uid, n.shell)], table, acl))
  {
    hide Balanced, Written, InSync, Executed, Changes, Drops;
    var m := Record(was, 1);
    var inp := Setting([t, n], [], [m], [], table);
    var acl := Written(tree, ByUid(was.uid), was.fileGrants);
    var accounts := Row(was)[n.name := PwEntry(n.uid, n.shell)];
    BalancedStart(was, m, table, tree, dir, {t.uid, n.uid});
    BareHolds(Row(was), table, acl, dir);
    BareHolds(accounts, table, acl, dir);
    CreatesSecond(t, n, m, table);
    SecondAccount(was, n, [m]);
    NoFragments(dir, n);
    GrantlessAcl(n, accounts, acl, [m]);
    assert RunGrantActions(inp) == [];
    forall k | Required(RequiredSpec([t, n], []), k) ensures false { RequiredExactly([t, n], [], k); }
    NoGroupWork(inp);
    JoinsNothing(n, table, [m]);
    assert MembersAfter(table, [], [], []) == table;
    TableStays(inp, table);
    assert Applied(inp, dir, Bare(Row(was), table, acl), Bare(accounts, table, acl));
  }

  // ----- a group that loses a grant it keeps -----

  function Owned(group: string, grants: seq<Grant>): ManagedGroup {
    ManagedGroup(group, None, Created, [], [], grants, None, 1)
  }

  function Granting(group: string, grants: seq<Grant>): ResolvedGroup {
    ResolvedGroup(group, None, Created, [], [], grants)
  }

  /** A group run on a machine without accounts: the entries end where the grant plan puts them. */
  lemma GroupOnlyRun(dir: string, inp: Inputs, accounts: map<string, PwEntry>, table: GroupTable, acl: Acl)
    requires dir != "/etc" && inp.targets.Some? && inp.groups.Some? && RunActions(inp) == []
    requires GroupFragmentsAfter(map[], dir, inp.groups.value, RunGrantActions(inp)) == map[]
    requires RunGroupActions(inp) == [] && MembersAfter(table, inp.groups.value, inp.managedGroups, RunGrantActions(inp)) == table
    ensures Applied(inp, dir, Bare(accounts, table, acl), Bare(accounts, table, GroupAclAfter(acl, inp.groups.value, inp.managedGroups, RunGrantActions(inp))))
  {
    hide RunActions, RunGrantActions, GroupAclAfter, GroupFragmentsAfter;
    var after := GroupAclAfter(acl, inp.groups.value, inp.managedGroups, RunGrantActions(inp));
    BareHolds(accounts, table, acl, dir);
    BareHolds(accounts, table, after, dir);
    assert AclAfterDeletes(acl, inp.managed, []) == acl;
    assert GroupsAfter(table, inp.managed, []) == Some(table);
    TableStays(inp, table);
  }

  lemma NoGroupFragment(dir: string, groups: seq<ResolvedGroup>, a: GroupAction)
    requires GroupRuleFor(a, groups).None?
    ensures GroupFragmentsAfter(map[], dir, groups, [a]) == map[]
  {
    assert [a][..0] == [];
    assert GroupFragmentsAfter(map[], dir, groups, []) == map[];
  }

  lemma RecordedGroupHolds(dir: string, group: string, grants: seq<Grant>, accounts: map<string, PwEntry>, table: GroupTable, tree: seq<string>)
    requires dir != "/etc"
    ensures GroupDescribes(Owned(group, grants), Bare(accounts, table, Written(tree, ByGroup(group), grants)), dir)
  {
    hide Asked;
    var acl := Written(tree, ByGroup(group), grants);
    BareHolds(accounts, table, acl, dir);
    forall path ensures EntryOf(acl, AclKey(ByGroup(group), path)) == Asked(tree, grants, path) {
      WrittenHolds(tree, ByGroup(group), grants, AclKey(ByGroup(group), path));
    }
  }

  lemma UpdatesOne(g: ResolvedGroup, p: ManagedGroup, table: GroupTable)
    requires g.name == p.name && !GroupInSync(g, p)
    ensures RunGrantActions(Setting([], [g], [], [p], table)) == [UpdateGroup(g.name)]
  {
    assert [g][..0] == [] && [p][..0] == [];
    assert GrantHeads([g], [p]) == GrantHeads([], [p]) + GrantActionFor(g, [p]);
    assert DeclaredGroup([g], p.name) by { assert [g][0].name == p.name; }
    assert GrantTeardowns([g], [p]) == GrantTeardowns([g], []) + [];
  }

  /**
   A group recorded with a directory and declared with one below it: the update grants the lower one, then
   revokes the upper one recursively, and the group is left without the grant its new record claims.
   */
  lemma NarrowedGroupLosesItsGrant(dir: string, group: string, wide: Grant, deep: Grant, tree: seq<string>, table: GroupTable, created: seq<CreatedGroup>)
    requires dir != "/etc" && wide.path != deep.path && AtOrUnder(wide.path, deep.path) && deep.path in tree && group in table.gids
    ensures var p, g := Owned(group, [wide]), Granting(group, [deep]);
            var inp := Setting([], [g], [], [p], table);
            var acl := Written(tree, ByGroup(group), [wide]);
            var before, after := Bare(map[], table, acl), Bare(map[], table, GroupAclAfter(acl, [g], [p], RunGrantActions(inp)));
            && GroupStep(inp, dir, before, after) && GroupDescribes(p, before, dir)
            && FindGroup(GroupRecords(inp, created), group).Some?
            && !GroupDescribes(FindGroup(GroupRecords(inp, created), group).value, after, dir)
  {
    hide AtOrUnder, GroupRecords, RunRequired, GroupStep, GroupDescribes, Written, Bare, Severed, Granting, Owned, RunGrantActions;
    var p, g := Owned(group, [wide]), Granting(group, [deep]);
    var inp := Setting([], [g], [], [p], table);
    var acl := Written(tree, ByGroup(group), [wide]);
    var before, after := Bare(map[], table, acl), Bare(map[], table, GroupAclAfter(acl, [g], [p], RunGrantActions(inp)));
    NarrowedRun(dir, group, wide, deep, tree, table);
    NarrowedIsSevered(group, wide, deep, tree, table);
    GroupRecordIsTrueIff(inp, dir, before, after, created, group);
  }

  lemma NarrowedRun(dir: string, group: string, wide: Grant, deep: Grant, tree: seq<string>, table: GroupTable)
    requires dir != "/etc" && wide.path != deep.path && group in table.gids
    ensures var p, g := Owned(group, [wide]), Granting(group, [deep]);
            var inp := Setting([], [g], [], [p], table);
            var acl := Written(tree, ByGroup(group), [wide]);
            var before, after := Bare(map[], table, acl), Bare(map[], table, GroupAclAfter(acl, [g], [p], RunGrantActions(inp)));
            && GroupStep(inp, dir, before, after) && before.acl.tree == tree
            && forall r :: r in inp.managedGroups ==> GroupDescribes(r, before, dir)
  {
    hide GroupDescribes, RunGrantActions, RunGroupActions, GroupAclAfter, GroupFragmentsAfter, Applied, RequiredSpec;
    var p, g := Owned(group, [wide]), Granting(group, [deep]);
    var inp := Setting([], [g], [], [p], table);
    assert !GroupInSync(g, p) by { assert deep in multiset([deep]) && deep !in multiset([wide]); }
    UpdatesOne(g, p, table);
    NoGroupFragment(dir, [g], UpdateGroup(group));
    assert [g][0].name == group;
    RequiredExactly([], [g], group);
    forall n | Required(RequiredSpec([], [g]), n) ensures n in table.gids { RequiredExactly([], [g], n); }
    NoGroupWork(inp);
    NobodyWanted(table, [g], [p], UpdateGroup(group));
    GroupOnlyRun(dir, inp, map[], table, Written(tree, ByGroup(group), [wide]));
    RecordedGroupHolds(dir, group, [wide], map[], table, tree);
  }

  lemma NarrowedIsSevered(group: string, wide: Grant, deep: Grant, tree: seq<string>, table: GroupTable)
    requires wide.path != deep.path && AtOrUnder(wide.path, deep.path) && deep.path in tree
    ensures var p, g := Owned(group, [wide]), Granting(group, [deep]);
            var inp := Setting([], [g], [], [p], table);
            KnownGroup(inp, group) && DeclaredGroup(inp.groups.value, group) && p in inp.managedGroups && !RecordHolds(inp, tree, group)
  {
    hide AtOrUnder;
    var p, g := Owned(group, [wide]), Granting(group, [deep]);
    AtItself(deep.path);
    assert [g][0].name == group && [wide][0] == wide && [deep][0] == deep;
    DroppedContains([wide], [deep], wide);
    ReachedBy(Dropped([wide], [deep]), wide, deep.path);
    ReachedBy([deep], deep, deep.path);
    assert !GroupInSync(g, p) by { assert deep in multiset([deep]) && deep !in multiset([wide]); }
    assert Severed(tree, [deep], Dropped([wide], [deep])) by { assert Asked(tree, [deep], deep.path).Some?; }
  }

  /** For instance `/srv` and `/srv/data`, both enforceable. */
  lemma SrvAndData()
    ensures var wide, deep := Grant("/srv", {Read}, true), Grant("/srv/data", {Read}, true);
            wide.path != deep.path && AtOrUnder(wide.path, deep.path) && Routable([wide, deep], ACL_CAPABILITIES)
  {
  }

  // ----- a group that is joined and no longer declared -----

  lemma InSyncPlansNothing(t: ResolvedAccount, m: ManagedAccount, managedGroups: seq<ManagedGroup>, table: GroupTable)
    requires t.name == m.name && InSync(t, m)
    ensures RunActions(Setting([t], [], [m], managedGroups, table)) == [] && RunDeferred(Setting([t], [], [m], managedGroups, table)) == []
  {
    assert [t][..0] == [] && [m][..0] == [];
    assert Declared([t], m.name) by { assert [t][0].name == m.name; }
    assert Changes([t], [m]) == Changes([], [m]) + ActionFor(t, [m]);
    assert Drops([t], [m]) == Drops([t], []) + [];
    assert DiffSpec([t], [m]) == [];
  }

  function Joining(name: string, uid: nat, group: string): ResolvedAccount {
    ResolvedAccount(name, uid, "/bin/sh", [group], None, [], [])
  }

  /** An account that joins a group Census made, in sync with its record; the group is declared no longer. */
  function Undeclared(name: string, uid: nat, p: ManagedGroup, table: GroupTable): Inputs {
    Setting([Joining(name, uid, p.name)], [], [Record(Joining(name, uid, p.name), 1)], [p], table)
  }

  lemma StillRequired(name: string, uid: nat, p: ManagedGroup, table: GroupTable)
    ensures RunActions(Undeclared(name, uid, p, table)) == [] && Required(RunRequired(Undeclared(name, uid, p, table)), p.name)
  {
    hide RequiredSpec, RunActions;
    var t, inp := Joining(name, uid, p.name), Undeclared(name, uid, p, table);
    InSyncPlansNothing(t, Record(t, 1), [p], table);
    assert inp.targets.value[0].groups[0] == p.name;
    RequiredExactly([t], [], p.name);
    FoldDeferredRequires(RequiredSpec([t], []), RunDeferred(inp), inp.managed, p.name);
  }

  lemma TearsDownOne(p: ManagedGroup, targets: seq<ResolvedAccount>, managed: seq<ManagedAccount>, table: GroupTable)
    ensures RunGrantActions(Setting(targets, [], managed, [p], table)) == [TeardownFor(p)]
  {
    assert [p][..0] == [];
    assert GrantTeardowns([], [p]) == GrantTeardowns([], []) + [TeardownFor(p)];
  }

  /** The grants of the group go, its record stays and still claims them. */
  lemma JoinedGroupLosesItsGrants(dir: string, name: string, uid: nat, group: string, grant: Grant, tree: seq<string>, table: GroupTable, created: seq<CreatedGroup>)
    requires dir != "/etc" && grant.path in tree && group in table.gids
    ensures var p := Owned(group, [grant]);
            var inp := Undeclared(name, uid, p, table);
            var accounts, acl := Row(Joining(name, uid, group)), Written(tree, ByGroup(group), [grant]);
            var before, after := Bare(accounts, table, acl), Bare(accounts, table, GroupAclAfter(acl, [], [p], RunGrantActions(inp)));
            && GroupStep(inp, dir, before, after) && GroupDescribes(p, before, dir)
            && FindGroup(GroupRecords(inp, created), group) == Some(p) && !GroupDescribes(p, after, dir)
  {
    hide AtOrUnder, GroupRecords, RunRequired, GroupStep, GroupDescribes, Written, Bare, Grantless, RunGrantActions, Required;
    var p := Owned(group, [grant]);
    var inp := Undeclared(name, uid, p, table);
    var accounts, acl := Row(Joining(name, uid, group)), Written(tree, ByGroup(group), [grant]);
    var before, after := Bare(accounts, table, acl), Bare(accounts, table, GroupAclAfter(acl, [], [p], RunGrantActions(inp)));
    TornDownRun(dir, name, uid, group, grant, tree, table);
    StillRequired(name, uid, p, table);
    assert [p][0] == p;
    RecordOfGroup(inp, created, group);
    CarriedRecordIsTrueIff(inp, dir, before, after, p);
    NotGrantless(tree, grant);
  }

  lemma NotGrantless(tree: seq<string>, grant: Grant)
    requires grant.path in tree
    ensures !Grantless(tree, [grant])
  {
    AtItself(grant.path);
    assert [grant][0] == grant;
    ReachedBy([grant], grant, grant.path);
    assert Asked(tree, [grant], grant.path).Some?;
  }

  lemma TornDownRun(dir: string, name: string, uid: nat, group: string, grant: Grant, tree: seq<string>, table: GroupTable)
    requires dir != "/etc" && group in table.gids
    ensures var p := Owned(group, [grant]);
            var inp := Undeclared(name, uid, p, table);
            var accounts, acl := Row(Joining(name, uid, group)), Written(tree, ByGroup(group), [grant]);
            var before, after := Bare(accounts, table, acl), Bare(accounts, table, GroupAclAfter(acl, [], [p], RunGrantActions(inp)));
            && GroupStep(inp, dir, before, after) && GroupDescribes(p, before, dir) && after.acl.tree == tree
  {
    hide GroupDescribes, RunGrantActions, RunGroupActions, GroupAclAfter, GroupFragmentsAfter, Applied, RunRequired, RunActions, RequiredSpec;
    var p := Owned(group, [grant]);
    var inp := Undeclared(name, uid, p, table);
    var accounts, acl := Row(Joining(name, uid, group)), Written(tree, ByGroup(group), [grant]);
    StillRequired(name, uid, p, table);
    TearsDownOne(p, inp.targets.value, inp.managed, table);
    NoGroupFragment(dir, [], TeardownFor(p));
    var t := Joining(name, uid, group);
    assert [t][0].groups[0] == group;
    RequiredExactly([t], [], group);
    forall n | Required(RequiredSpec([t], []), n) ensures n in table.gids { RequiredExactly([t], [], n); }
    NoGroupWork(inp);
    NobodyWanted(table, [], [p], TeardownFor(p));
    GroupOnlyRun(dir, inp, accounts, table, acl);
    RecordedGroupHolds(dir, group, [grant], accounts, table, tree);
  }

  /** The same declaration applied again tears the group down again. */
  lemma OwnedGroupIsNeverQuiet(name: string, uid: nat, p: ManagedGroup, table: GroupTable, created: seq<CreatedGroup>)
    requires CreatedFrom(RunGroupActions(Undeclared(name, uid, p, table)), created)
    ensures RunGrantActions(Again(Undeclared(name, uid, p, table), created)) != []
  {
    hide GroupRecords, RunRequired, RunGroupActions, CreatedFrom;
    var inp := Undeclared(name, uid, p, table);
    StillRequired(name, uid, p, table);
    assert [p][0] == p;
    assert OwnedUndeclared(inp, p.name);
    SecondApplyIsQuietIff(inp, created);
  }

  // ----- a registry that was not written -----

  /** One account is created and the registry is lost: the old, empty registry no longer describes the machine. */
  lemma LostRegistryIsWrong(dir: string, name: string, uid: nat, table: GroupTable)
    requires dir != "/etc"
    ensures var t := Holding(name, uid, []);
            var inp := Setting([t], [], [], [], table);
            var before, after := Bare(map[], table, Acl([], map[])), Bare(Row(t), table, Acl([], map[]));
            Step(inp, dir, {uid}, before, after) && !Balanced(inp.managed, after, dir, {uid})
  {
    hide Applied, Balanced, RunActions, Bare;
    var t := Holding(name, uid, []);
    var inp := Setting([t], [], [], [], table);
    CreateRun(dir, t, table);
    CreatesOne(t, [], table);
    assert Create(t) in RunActions(inp);
    assert !Invisible(inp, Bare(map[], table, Acl([], map[])).acl.tree, Create(t));
    OldRegistryHoldsIff(inp, dir, {uid}, Bare(map[], table, Acl([], map[])), Bare(Row(t), table, Acl([], map[])));
  }

  lemma CreateRun(dir: string, t: ResolvedAccount, table: GroupTable)
    requires dir != "/etc" && t.fileGrants == [] && t.groups == [] && TargetRule(t).None?
    ensures Step(Setting([t], [], [], [], table), dir, {t.uid}, Bare(map[], table, Acl([], map[])), Bare(Row(t), table, Acl([], map[])))
  {
    hide RunActions, RunGroupActions, GroupsApplied, RequiredSpec;
    var inp, none := Setting([t], [], [], [], table), Acl([], map[]);
    BareHolds(map[], table, none, dir);
    BareHolds(Row(t), table, none, dir);
    CreatesOne(t, [], table);
    AccountCreated(t);
    NoFragments(dir, t);
    GrantlessAcl(t, Row(t), none, []);
    assert RunGrantActions(inp) == [];
    forall n | Required(RequiredSpec([t], []), n) ensures false { RequiredExactly([t], [], n); }
    NoGroupWork(inp);
    JoinsNothing(t, table, []);
    assert MembersAfter(table, [], [], []) == table;
    TableStays(inp, table);
    assert Balanced([], Bare(map[], table, none), dir, {t.uid});
    assert Applied(inp, dir, Bare(map[], table, none), Bare(Row(t), table, none));
  }

  // ----- an account moved out of a group that lists it -----

  function InGroups(name: string, uid: nat, groups: seq<string>): ResolvedAccount {
    ResolvedAccount(name, uid, "/bin/sh", groups, None, [], [])
  }

  /** A declared group with one member, in sync with its record. */
  function Crew(group: string, user: string): ResolvedGroup { ResolvedGroup(group, None, Created, [user], [], []) }

  function CrewRecord(group: string, user: string): ManagedGroup { ManagedGroup(group, None, Created, [user], [], [], None, 1) }

  function Moving(name: string, uid: nat, from: string, to: string, crew: string, table: GroupTable): Inputs {
    Setting([InGroups(name, uid, [to])], [Crew(crew, name)], [Record(InGroups(name, uid, [from]), 1)], [CrewRecord(crew, name)], table)
  }

  lemma MovePlan(name: string, uid: nat, from: string, to: string, crew: string, table: GroupTable)
    requires from != to
    ensures var inp := Moving(name, uid, from, to, crew, table);
            RunActions(inp) == [Update(inp.targets.value[0])] && RunGrantActions(inp) == []
  {
    MoveAccounts(name, uid, from, to);
    MoveGrants(crew, name);
  }

  lemma MoveAccounts(name: string, uid: nat, from: string, to: string)
    requires from != to
    ensures var t, m := InGroups(name, uid, [to]), Record(InGroups(name, uid, [from]), 1);
            Executed(DiffSpec([t], [m]), [m], NO_SESSIONS) == [Update(t)]
  {
    var t, m := InGroups(name, uid, [to]), Record(InGroups(name, uid, [from]), 1);
    assert [t][..0] == [] && [m][..0] == [] && [Update(t)][..0] == [];
    assert !InSync(t, m) by { assert to in multiset([to]) && to !in multiset([from]); }
    assert Declared([t], m.name) by { assert [t][0].name == m.name; }
    assert Changes([t], [m]) == Changes([], [m]) + ActionFor(t, [m]);
    assert Drops([t], [m]) == Drops([t], []) + [];
    assert DiffSpec([t], [m]) == [Update(t)];
    assert Executed([Update(t)], [m], NO_SESSIONS) == Executed([], [m], NO_SESSIONS) + [Update(t)];
  }

  lemma MoveGrants(crew: string, name: string)
    ensures DiffResolvedSpec([Crew(crew, name)], [CrewRecord(crew, name)]) == []
  {
    var g, p := Crew(crew, name), CrewRecord(crew, name);
    assert [g][..0] == [] && [p][..0] == [];
    assert GrantHeads([g], [p]) == GrantHeads([], [p]) + GrantActionFor(g, [p]);
    assert DeclaredGroup([g], p.name) by { assert [g][0].name == p.name; }
    assert GrantTeardowns([g], [p]) == GrantTeardowns([g], []) + [];
  }

  lemma MoveRun(dir: string, name: string, uid: nat, from: string, to: string, crew: string, table: GroupTable)
    requires dir != "/etc" && from != to && to in table.gids && crew in table.gids
    ensures var inp := Moving(name, uid, from, to, crew, table);
            var t, none := inp.targets.value[0], Acl([], map[]);
            GroupStep(inp, dir, Bare(Row(t), table, none), Bare(Row(t), Reenroll(table, name, [to]), none))
  {
    hide RunActions, RunGrantActions, RunGroupActions, RequiredSpec;
    var inp := Moving(name, uid, from, to, crew, table);
    var t, m, none := inp.targets.value[0], inp.managed[0], Acl([], map[]);
    var moved := Reenroll(table, name, [to]);
    MovePlan(name, uid, from, to, crew, table);
    BareHolds(Row(t), table, none, dir);
    BareHolds(Row(t), moved, none, dir);
    assert [t][0].groups[0] == to && inp.groups.value[0].name == crew;
    forall n | Required(RequiredSpec([t], inp.groups.value), n) ensures n in table.gids { RequiredExactly([t], inp.groups.value, n); }
    RequiredExactly([t], inp.groups.value, crew);
    NoGroupWork(inp);
    assert [Update(t)][..0] == [];
    assert AccountsAfter(Row(t), [m], []) == Some(Row(t)) && GroupsAfter(table, [m], []) == Some(table);
    assert AclAfter(none, Row(t), [m], []) == Some(none) && AclAfterDeletes(none, [m], []) == none;
    assert Known(table, [to]);
    assert !SameItems(t.groups, m.groups) by { assert to in multiset([to]) && to !in multiset([from]); }
    assert GroupsAfter(table, [m], [Update(t)]) == Some(moved);
    assert Added(table, table, []);
    assert Without(moved, []) == moved;
    assert MembersAfter(moved, inp.groups.value, inp.managedGroups, []) == moved;
    assert GroupsApplied(inp, table, moved);
    NoFragmentsUpdate(dir, t);
    assert Applied(inp, dir, Bare(Row(t), table, none), Bare(Row(t), moved, none));
  }

  lemma NoFragmentsUpdate(dir: string, t: ResolvedAccount)
    requires TargetRule(t).None?
    ensures FragmentsAfter(map[], dir, [Update(t)]) == map[]
  {
    assert [Update(t)][..0] == [];
  }

  /**
   An account listed as a member by a declared group, whose own group list changes: `usermod -G` takes it out
   of that group, the group is in sync and not written again, and its record goes on claiming the member.
   */
  lemma MovedAccountLosesItsCrew(dir: string, name: string, uid: nat, from: string, to: string, crew: string, table: GroupTable, created: seq<CreatedGroup>)
    requires dir != "/etc" && from != to && from != crew && to != crew && to in table.gids && crew in table.gids
    requires table.members == {Membership(from, name), Membership(crew, name)}
    ensures var inp := Moving(name, uid, from, to, crew, table);
            var t, none := inp.targets.value[0], Acl([], map[]);
            var before, after := Bare(Row(t), table, none), Bare(Row(t), Reenroll(table, name, [to]), none);
            && GroupStep(inp, dir, before, after)
            && Enrolled(name, [from], inp.managedGroups, table)
            && !Enrolled(name, [to], GroupRecords(inp, created), Groups(after.files))
  {
    hide GroupStep, GroupRecords, RunActions, RunGrantActions, RunGroupActions, RunRequired;
    var inp := Moving(name, uid, from, to, crew, table);
    var t, none := inp.targets.value[0], Acl([], map[]);
    var moved := Reenroll(table, name, [to]);
    MoveRun(dir, name, uid, from, to, crew, table);
    BareHolds(Row(t), table, none, dir);
    BareHolds(Row(t), moved, none, dir);
    NewRecordLists(inp, created, t, crew);
    assert Claimed(inp, t, crew);
    assert crew !in t.groups;
    assert Membership(crew, name) !in moved.members;
  }
}
