/**
 The group side of the registry. Promises of the original that do not hold for
 every input; the lemmas say for which inputs they do.

 - The new record of a declared group describes the machine exactly when the
   grants it keeps and the grants it drops never reach the same path: the group
   phase grants first and revokes afterwards, and both act on whole subtrees.
 - A group that is still joined but no longer declared is stripped, and its
   record carried over verbatim: the record is true when it has nothing to lose.
 - Applying the same declaration twice plans no grant work exactly when every
   group Census owns is declared: an owned, undeclared group is torn down again.
 */
module GroupLedger {
  import opened Outcomes
  import opened Records
  import opened Plan
  import opened DiskModel
  import opened ProvisionerModel
  import opened FileAccess
  import opened ApplyPlan
  import opened DeclarationModel
  import opened Transaction
  import opened Effects
  import opened Ledger
  import opened Paths

  ghost predicate UniqueGroupRecords(records: seq<ManagedGroup>) {
    forall i, j :: 0 <= i < j < |records| ==> records[i].name != records[j].name
  }

  ghost predicate UniqueDeclared(groups: seq<ResolvedGroup>) {
    forall i, j :: 0 <= i < j < |groups| ==> groups[i].name != groups[j].name
  }

  // ----- reading the new records -----

  lemma {:induction false} PutFinds(records: seq<ManagedGroup>, g: ManagedGroup, n: string)
    ensures FindGroup(Put(records, g), n) == if n == g.name then Some(g) else FindGroup(records, n)
  {
    if records != [] && records[0].name != g.name {
      PutFinds(records[1..], g, n);
      assert Put(records, g)[1..] == Put(records[1..], g);
    }
  }

  lemma {:induction false} PutKeepsUnique(records: seq<ManagedGroup>, g: ManagedGroup)
    requires UniqueGroupRecords(records)
    ensures UniqueGroupRecords(Put(records, g))
    ensures forall r :: r in Put(records, g) ==> r == g || r in records
  {
    if records != [] && records[0].name != g.name {
      PutKeepsUnique(records[1..], g);
      var rest := Put(records[1..], g);
      forall j | 0 <= j < |rest| ensures rest[j].name != records[0].name {
        assert rest[j] in rest;
        if rest[j] != g {
          var k :| 0 <= k < |records[1..]| && records[1..][k] == rest[j];
          assert records[k + 1].name != records[0].name;
        }
      }
    }
  }

  lemma {:induction false} CarriedIsUnique(prior: seq<ManagedGroup>, required: seq<Requirement>)
    ensures UniqueGroupRecords(Carried(prior, required))
  {
    hide Put, Required;
    if prior != [] {
      CarriedIsUnique(prior[..|prior| - 1], required);
      PutKeepsUnique(Carried(prior[..|prior| - 1], required), prior[|prior| - 1]);
    }
  }

  lemma {:induction false} CreatedIsUnique(records: seq<ManagedGroup>, created: seq<CreatedGroup>, version: nat, facts: GroupFacts)
    requires UniqueGroupRecords(records)
    ensures UniqueGroupRecords(WithCreated(records, created, version, facts))
  {
    hide Put, FindGroup;
    if created != [] {
      CreatedIsUnique(records, created[..|created| - 1], version, facts);
      PutKeepsUnique(WithCreated(records, created[..|created| - 1], version, facts), NewGroup(created[|created| - 1], version, facts));
    }
  }

  lemma {:induction false} DeclaredIsUnique(records: seq<ManagedGroup>, groups: seq<ResolvedGroup>, prior: seq<ManagedGroup>, baselines: map<string, GroupBaseline>, version: nat, facts: GroupFacts)
    requires UniqueGroupRecords(records)
    ensures UniqueGroupRecords(WithDeclared(records, groups, prior, baselines, version, facts))
  {
    hide Put, Overlay;
    if groups != [] {
      DeclaredIsUnique(records, groups[..|groups| - 1], prior, baselines, version, facts);
      PutKeepsUnique(WithDeclared(records, groups[..|groups| - 1], prior, baselines, version, facts),
                     Overlay(groups[|groups| - 1], prior, baselines, version, facts));
    }
  }

  /** The group registry a run reports has one record per name, whatever it started from. */
  lemma GroupRecordsAreUnique(inp: Inputs, created: seq<CreatedGroup>)
    requires inp.targets.Some? && inp.groups.Some?
    ensures UniqueGroupRecords(GroupRecords(inp, created))
  {
    hide Carried, WithCreated, WithDeclared, RunRequired;
    CarriedIsUnique(inp.managedGroups, RunRequired(inp));
    var carried := Carried(inp.managedGroups, RunRequired(inp));
    CreatedIsUnique(carried, created, inp.version, inp.facts);
    DeclaredIsUnique(WithCreated(carried, created, inp.version, inp.facts), inp.groups.value, inp.managedGroups,
                     Baselines(RunGrantActions(inp), inp.managedGroups, inp.facts, inp.members), inp.version, inp.facts);
  }

  lemma {:induction false} FindGroupLast(records: seq<ManagedGroup>, n: string)
    requires UniqueGroupRecords(records) && records != []
    ensures var k := |records| - 1;
            FindGroup(records, n) == if records[k].name == n then Some(records[k]) else FindGroup(records[..k], n)
  {
    var k := |records| - 1;
    if k > 0 {
      FindGroupLast(records[1..], n);
      assert records[1..][..k - 1] == records[..k][1..];
    }
  }

  lemma {:induction false} CarriedFinds(prior: seq<ManagedGroup>, required: seq<Requirement>, n: string)
    requires UniqueGroupRecords(prior)
    ensures FindGroup(Carried(prior, required), n) == if Required(required, n) then FindGroup(prior, n) else None
  {
    if prior != [] {
      var k := |prior| - 1;
      CarriedFinds(prior[..k], required, n);
      FindGroupLast(prior, n);
      PutFinds(Carried(prior[..k], required), prior[k], n);
    }
  }

  /** The GID the inspector reports. */
  function LiveGid(facts: GroupFacts, n: string): Option<nat> {
    if n in facts.gids then Some(facts.gids[n]) else None
  }

  predicate WasCreated(created: seq<CreatedGroup>, n: string) {
    exists i :: 0 <= i < |created| && created[i].name == n
  }

  lemma {:induction false} CreatedFinds(records: seq<ManagedGroup>, created: seq<CreatedGroup>, version: nat, facts: GroupFacts, n: string)
    ensures var r := FindGroup(WithCreated(records, created, version, facts), n);
            && (FindGroup(records, n).Some? ==> r == FindGroup(records, n))
            && (FindGroup(records, n).None? ==> (r.Some? <==> WasCreated(created, n)))
            && (FindGroup(records, n).None? && r.Some? ==>
                  && r.value.name == n && r.value.provenance == Created && r.value.fromVersion == version && r.value.adoptBaseline == None
                  && r.value.sudoCommands == [] && r.value.fileGrants == [] && r.value.membersAdded == []
                  && exists c :: c in created && c.name == n && r.value.gid == (if c.gid.Some? then c.gid else LiveGid(facts, n)))
  {
    hide Put, FindGroup;
    if created != [] {
      var k := |created| - 1;
      var rest := WithCreated(records, created[..k], version, facts);
      CreatedFinds(records, created[..k], version, facts, n);
      assert forall i :: 0 <= i < k ==> created[..k][i] == created[i];
      PutFinds(rest, NewGroup(created[k], version, facts), n);
      if WasCreated(created, n) && created[k].name != n {
        var i :| 0 <= i < |created| && created[i].name == n;
        assert created[..k][i].name == n;
      }
    }
  }

  lemma {:induction false} DeclaredFinds(records: seq<ManagedGroup>, groups: seq<ResolvedGroup>, prior: seq<ManagedGroup>, baselines: map<string, GroupBaseline>, version: nat, facts: GroupFacts, n: string)
    requires UniqueDeclared(groups)
    ensures FindGroup(WithDeclared(records, groups, prior, baselines, version, facts), n) ==
            match FindResolvedGroup(groups, n)
            case Some(g) => Some(Overlay(g, prior, baselines, version, facts))
            case None => FindGroup(records, n)
  {
    if groups != [] {
      var k := |groups| - 1;
      DeclaredFinds(records, groups[..k], prior, baselines, version, facts, n);
      PutFinds(WithDeclared(records, groups[..k], prior, baselines, version, facts),
               Overlay(groups[k], prior, baselines, version, facts), n);
      FindResolvedLast(groups, n);
    }
  }

  lemma {:induction false} FindResolvedLast(groups: seq<ResolvedGroup>, n: string)
    requires UniqueDeclared(groups) && groups != []
    ensures var k := |groups| - 1;
            FindResolvedGroup(groups, n) == if groups[k].name == n then Some(groups[k]) else FindResolvedGroup(groups[..k], n)
  {
    var k := |groups| - 1;
    if k > 0 {
      FindResolvedLast(groups[1..], n);
      assert groups[1..][..k - 1] == groups[..k][1..];
    }
  }

  lemma {:induction false} BaselinesAre(actions: seq<GroupAction>, managed: seq<ManagedGroup>, facts: GroupFacts, members: map<string, seq<string>>, n: string)
    ensures var b := Baselines(actions, managed, facts, members);
            && (n in b <==> Adopt(n) in actions && FindGroup(managed, n).None?)
            && (n in b ==> b[n] == GroupBaseline(LiveGid(facts, n), if n in members then members[n] else []))
  {
    if actions != [] {
      var k := |actions| - 1;
      assert actions == actions[..k] + [actions[k]];
      BaselinesAre(actions[..k], managed, facts, members, n);
    }
  }

  /**
   The record of a declared group, field by field: grants, members and provenance are the declaration's; the
   GID is the pin, the recorded or the live one, in that order; an adopted group keeps the baseline of its
   first adoption; the version moves when anything recorded differs.
   */
  ghost predicate RecordsDeclared(r: ManagedGroup, g: ResolvedGroup, prior: Option<ManagedGroup>, inp: Inputs) {
    && r.name == g.name && r.provenance == g.provenance
    && r.sudoCommands == g.sudoCommands && r.fileGrants == g.fileGrants && r.membersAdded == g.members
    && (g.gid.Some? ==> r.gid == g.gid)
    && (g.gid.None? && prior.Some? && prior.value.gid.Some? ==> r.gid == prior.value.gid)
    && (g.gid.None? && (prior.None? || prior.value.gid.None?) ==> r.gid == LiveGid(inp.facts, g.name))
    && (g.provenance == Created ==> r.adoptBaseline == None)
    && (g.provenance == Adopted && prior.Some? ==> r.adoptBaseline == prior.value.adoptBaseline)
    && (g.provenance == Adopted && prior.None? ==>
          r.adoptBaseline == Some(GroupBaseline(LiveGid(inp.facts, g.name), if g.name in inp.members then inp.members[g.name] else [])))
    && r.fromVersion ==
       (if && prior.Some? && prior.value.provenance == g.provenance
           && multiset(prior.value.sudoCommands) == multiset(g.sudoCommands)
           && multiset(prior.value.fileGrants) == multiset(g.fileGrants)
           && multiset(prior.value.membersAdded) == multiset(g.members)
        then prior.value.fromVersion else inp.version)
  }

  /** A group made because an account joins it: no grants, no members of its own, the GID read back if that worked. */
  ghost predicate RecordsMade(r: ManagedGroup, created: seq<CreatedGroup>, inp: Inputs) {
    && r.provenance == Created && r.fromVersion == inp.version && r.adoptBaseline == None
    && r.sudoCommands == [] && r.fileGrants == [] && r.membersAdded == []
    && exists c :: c in created && c.name == r.name && r.gid == (if c.gid.Some? then c.gid else LiveGid(inp.facts, r.name))
  }

  /** What a successful run records about a group name. */
  lemma RecordOfGroup(inp: Inputs, created: seq<CreatedGroup>, n: string)
    requires inp.targets.Some? && inp.groups.Some?
    requires UniqueDeclared(inp.groups.value) && UniqueGroupRecords(inp.managedGroups)
    ensures var r := FindGroup(GroupRecords(inp, created), n);
            var g := FindResolvedGroup(inp.groups.value, n);
            if g.Some? then r.Some? && RecordsDeclared(r.value, g.value, FindGroup(inp.managedGroups, n), inp)
            else if Required(RunRequired(inp), n) && FindGroup(inp.managedGroups, n).Some? then r == FindGroup(inp.managedGroups, n)
            else (r.Some? <==> WasCreated(created, n)) && (r.Some? ==> r.value.name == n && RecordsMade(r.value, created, inp))
  {
    hide RunRequired, Carried, WithCreated, WithDeclared, Baselines, RunGrantActions;
    var carried := Carried(inp.managedGroups, RunRequired(inp));
    var baselines := Baselines(RunGrantActions(inp), inp.managedGroups, inp.facts, inp.members);
    CarriedFinds(inp.managedGroups, RunRequired(inp), n);
    CreatedFinds(carried, created, inp.version, inp.facts, n);
    DeclaredFinds(WithCreated(carried, created, inp.version, inp.facts), inp.groups.value, inp.managedGroups, baselines, inp.version, inp.facts, n);
    BaselinesAre(RunGrantActions(inp), inp.managedGroups, inp.facts, inp.members, n);
    GrantActionOn(inp, Adopt(n));
  }

  // ----- the grant plan, name by name -----

  lemma HeadOn(groups: seq<ResolvedGroup>, managed: seq<ManagedGroup>, a: GroupAction)
    requires UniqueDeclared(groups)
    ensures a in GrantHeads(groups, managed) <==>
            FindResolvedGroup(groups, a.name).Some? && a in GrantActionFor(FindResolvedGroup(groups, a.name).value, managed)
  {
    GrantHeadsContain(groups, managed, a);
    if a in GrantHeads(groups, managed) {
      var i :| 0 <= i < |groups| && a in GrantActionFor(groups[i], managed);
      assert a.name == groups[i].name;
      FindResolvedUnique(groups, i);
    }
  }

  lemma {:induction false} FindResolvedUnique(groups: seq<ResolvedGroup>, i: nat)
    requires UniqueDeclared(groups) && i < |groups|
    ensures FindResolvedGroup(groups, groups[i].name) == Some(groups[i])
  {
    if i > 0 {
      assert groups[0].name != groups[i].name;
      FindResolvedUnique(groups[1..], i - 1);
    }
  }

  lemma TeardownOn(groups: seq<ResolvedGroup>, managed: seq<ManagedGroup>, a: GroupAction)
    requires UniqueGroupRecords(managed)
    ensures a in GrantTeardowns(groups, managed) <==>
            && FindResolvedGroup(groups, a.name).None?
            && FindGroup(managed, a.name).Some? && a == TeardownFor(FindGroup(managed, a.name).value)
  {
    GrantTeardownsContain(groups, managed, a);
    DeclaredIffFound(groups, a.name);
    if a in GrantTeardowns(groups, managed) {
      var i :| 0 <= i < |managed| && a == TeardownFor(managed[i]) && !DeclaredGroup(groups, managed[i].name);
      FindGroupUnique(managed, managed[i]);
    }
  }

  lemma DeclaredIffFound(groups: seq<ResolvedGroup>, n: string)
    ensures DeclaredGroup(groups, n) <==> FindResolvedGroup(groups, n).Some?
  {
    var g := FindResolvedGroup(groups, n);
    if g.Some? {
      var i :| 0 <= i < |groups| && groups[i] == g.value;
    }
  }

  /** Why the grant plan holds an action. */
  predicate GrantCalledFor(inp: Inputs, a: GroupAction)
    requires inp.groups.Some?
  {
    match FindResolvedGroup(inp.groups.value, a.name)
    case Some(g) => a in GrantActionFor(g, inp.managedGroups)
    case None => FindGroup(inp.managedGroups, a.name).Some? && a == TeardownFor(FindGroup(inp.managedGroups, a.name).value)
  }

  /** The grant plan, exactly: at most one action on a name. */
  lemma GrantActionOn(inp: Inputs, a: GroupAction)
    requires inp.groups.Some? && UniqueDeclared(inp.groups.value) && UniqueGroupRecords(inp.managedGroups)
    ensures a in RunGrantActions(inp) <==> GrantCalledFor(inp, a)
  {
    HeadOn(inp.groups.value, inp.managedGroups, a);
    TeardownOn(inp.groups.value, inp.managedGroups, a);
  }

  lemma GrantActionNames(inp: Inputs, a: GroupAction, b: GroupAction)
    requires inp.groups.Some? && UniqueDeclared(inp.groups.value) && UniqueGroupRecords(inp.managedGroups)
    requires a in RunGrantActions(inp) && b in RunGrantActions(inp) && a.name == b.name
    ensures a == b
  {
    GrantActionOn(inp, a);
    GrantActionOn(inp, b);
  }

  // ----- group entries after the group phases -----

  function Keep(groups: seq<ResolvedGroup>, a: GroupAction): seq<Grant> {
    if TearsDown(a) then [] else KeepOf(groups, a.name)
  }

  /** What granting `keep` and then revoking `removed` makes of one entry. */
  function Regroup(entry: Option<AclPerm>, tree: seq<string>, keep: seq<Grant>, removed: seq<Grant>, path: string): Option<AclPerm> {
    if Reaches(removed, path) then None
    else if Asked(tree, keep, path).Some? then Asked(tree, keep, path)
    else entry
  }

  function Regrouped(acl: Acl, groups: seq<ResolvedGroup>, managed: seq<ManagedGroup>, a: GroupAction, k: AclKey): Option<AclPerm> {
    Regroup(EntryOf(acl, k), acl.tree, Keep(groups, a), RemovedGroupGrants(a.name, Keep(groups, a), managed), k.path)
  }

  lemma GroupStepAt(acl: Acl, groups: seq<ResolvedGroup>, managed: seq<ManagedGroup>, a: GroupAction, k: AclKey)
    ensures EntryOf(GroupAclStep(acl, groups, managed, a), k) ==
            if k.holder == ByGroup(a.name) then Regrouped(acl, groups, managed, a, k) else EntryOf(acl, k)
  {
    var keep := Keep(groups, a);
    SetGrantsAt(acl, ByGroup(a.name), keep, k);
    DropGrantsAt(SetGrants(acl, ByGroup(a.name), keep), ByGroup(a.name), RemovedGroupGrants(a.name, keep, managed), k);
  }

  lemma {:induction false} GroupEntryUntouched(acl: Acl, groups: seq<ResolvedGroup>, managed: seq<ManagedGroup>, actions: seq<GroupAction>, k: AclKey)
    requires forall a :: a in actions ==> k.holder != ByGroup(a.name)
    ensures EntryOf(GroupAclAfter(acl, groups, managed, actions), k) == EntryOf(acl, k)
  {
    if actions != [] {
      var n := |actions| - 1;
      assert actions == actions[..n] + [actions[n]];
      GroupEntryUntouched(acl, groups, managed, actions[..n], k);
      GroupStepAt(GroupAclAfter(acl, groups, managed, actions[..n]), groups, managed, actions[n], k);
    }
  }

  /** With one kind of action on a name, its entries end where that action puts them. */
  lemma {:induction false} GroupEntryAfter(acl: Acl, groups: seq<ResolvedGroup>, managed: seq<ManagedGroup>, actions: seq<GroupAction>, a: GroupAction, k: AclKey)
    requires a in actions && forall b :: b in actions && b.name == a.name ==> b == a
    requires k.holder == ByGroup(a.name)
    ensures EntryOf(GroupAclAfter(acl, groups, managed, actions), k) == Regrouped(acl, groups, managed, a, k)
  {
    var n := |actions| - 1;
    var init := actions[..n];
    assert actions == init + [actions[n]];
    var mid := GroupAclAfter(acl, groups, managed, init);
    GroupStepAt(mid, groups, managed, actions[n], k);
    if a in init {
      GroupEntryAfter(acl, groups, managed, init, a, k);
    } else {
      GroupEntryUntouched(acl, groups, managed, init, k);
    }
  }

  // ----- does a group record describe the machine? -----

  /** Wherever the grants reach, the group has the entry they ask for. */
  ghost predicate HasGroupEntries(acl: Acl, group: string, grants: seq<Grant>) {
    forall path :: Asked(acl.tree, grants, path).Some? ==>
      EntryOf(acl, AclKey(ByGroup(group), path)) == Asked(acl.tree, grants, path)
  }

  /** The group's fragment and the entries of its recorded grants are there. */
  ghost predicate GroupDescribes(g: ManagedGroup, m: Machine, dir: string) {
    && FragmentSays(Fragments(m.files, dir), GroupFragment(dir, g.name), GroupRule(g.name, g.sudoCommands))
    && HasGroupEntries(m.acl, g.name, g.fileGrants)
  }

  ghost predicate GroupStep(inp: Inputs, dir: string, before: Machine, after: Machine) {
    && inp.targets.Some? && inp.groups.Some? && Applied(inp, dir, before, after)
    && UniqueTargets(inp.targets.value) && UniqueNames(inp.managed)
    && UniqueDeclared(inp.groups.value) && UniqueGroupRecords(inp.managedGroups)
  }

  /** The account phases write no group's entries. */
  lemma {:induction false} GroupEntryOutsideAccounts(acl: Acl, accounts: map<string, PwEntry>, managed: seq<ManagedAccount>, actions: seq<Action>, k: AclKey)
    requires AclAfter(acl, accounts, managed, actions).Some? && k.holder.ByGroup?
    ensures EntryOf(AclAfterDeletes(AclAfter(acl, accounts, managed, actions).value, managed, actions), k) == EntryOf(acl, k)
  {
    EntryUntouched(acl, accounts, managed, actions, k);
    EntryNotStripped(AclAfter(acl, accounts, managed, actions).value, managed, actions, k);
  }

  /** Where the run leaves an entry of a group it acts on. */
  lemma GroupActedOn(inp: Inputs, dir: string, before: Machine, after: Machine, a: GroupAction, path: string)
    requires GroupStep(inp, dir, before, after) && a in RunGrantActions(inp)
    ensures EntryOf(after.acl, AclKey(ByGroup(a.name), path)) ==
            Regrouped(before.acl, inp.groups.value, inp.managedGroups, a, AclKey(ByGroup(a.name), path))
  {
    hide RunActions, RunGrantActions, Asked, Reaches, Accounts, Fragments;
    var grants := RunGrantActions(inp);
    forall b | b in grants && b.name == a.name ensures b == a { GrantActionNames(inp, a, b); }
    var k := AclKey(ByGroup(a.name), path);
    var mid := AclAfter(before.acl, Accounts(after.files), inp.managed, RunActions(inp)).value;
    GroupEntryOutsideAccounts(before.acl, Accounts(after.files), inp.managed, RunActions(inp), k);
    GroupEntryAfter(AclAfterDeletes(mid, inp.managed, RunActions(inp)), inp.groups.value, inp.managedGroups, grants, a, k);
  }

  /** And of a group it does not act on. */
  lemma GroupLeftAlone(inp: Inputs, dir: string, before: Machine, after: Machine, n: string, path: string)
    requires GroupStep(inp, dir, before, after) && forall a :: a in RunGrantActions(inp) ==> a.name != n
    ensures EntryOf(after.acl, AclKey(ByGroup(n), path)) == EntryOf(before.acl, AclKey(ByGroup(n), path))
  {
    hide RunActions, RunGrantActions, Asked, Reaches, Accounts, Fragments;
    var k := AclKey(ByGroup(n), path);
    var mid := AclAfter(before.acl, Accounts(after.files), inp.managed, RunActions(inp)).value;
    GroupEntryOutsideAccounts(before.acl, Accounts(after.files), inp.managed, RunActions(inp), k);
    GroupEntryUntouched(AclAfterDeletes(mid, inp.managed, RunActions(inp)), inp.groups.value, inp.managedGroups, RunGrantActions(inp), k);
  }

  // ----- a declared group that changed -----

  /** Some existing path is reached both by a grant that is kept and by one that is revoked afterwards. */
  ghost predicate Severed(tree: seq<string>, keep: seq<Grant>, removed: seq<Grant>) {
    exists path :: Asked(tree, keep, path).Some? && Reaches(removed, path)
  }

  lemma HeadShape(inp: Inputs, g: ResolvedGroup, a: GroupAction)
    requires inp.groups.Some? && UniqueDeclared(inp.groups.value) && UniqueGroupRecords(inp.managedGroups)
    requires FindResolvedGroup(inp.groups.value, g.name) == Some(g) && a in GrantActionFor(g, inp.managedGroups)
    ensures a in RunGrantActions(inp) && a.name == g.name && !TearsDown(a)
  {
    assert a.name == g.name;
    GrantActionOn(inp, a);
  }

  lemma ChangedEntry(inp: Inputs, dir: string, before: Machine, after: Machine, g: ResolvedGroup, a: GroupAction, path: string)
    requires GroupStep(inp, dir, before, after) && FindResolvedGroup(inp.groups.value, g.name) == Some(g)
    requires a in RunGrantActions(inp) && a.name == g.name && !TearsDown(a)
    ensures EntryOf(after.acl, AclKey(ByGroup(g.name), path)) ==
            Regroup(EntryOf(before.acl, AclKey(ByGroup(g.name), path)), after.acl.tree, g.fileGrants,
                    RemovedGroupGrants(g.name, g.fileGrants, inp.managedGroups), path)
  {
    hide Applied, RunGrantActions, Regroup, RemovedGroupGrants, EntryOf;
    TreeStays(inp, dir, before, after);
    GroupActedOn(inp, dir, before, after, a, path);
  }

  /** A declared group that changed is described by its new record, unless what it kept was severed. */
  lemma ChangedGroupIsDescribedIff(inp: Inputs, dir: string, before: Machine, after: Machine, g: ResolvedGroup, record: ManagedGroup)
    requires GroupStep(inp, dir, before, after) && FindResolvedGroup(inp.groups.value, g.name) == Some(g)
    requires GrantActionFor(g, inp.managedGroups) != []
    requires record.name == g.name && record.sudoCommands == g.sudoCommands && record.fileGrants == g.fileGrants
    ensures GroupDescribes(record, after, dir) <==>
            !Severed(after.acl.tree, g.fileGrants, RemovedGroupGrants(g.name, g.fileGrants, inp.managedGroups))
  {
    hide Applied, RunGrantActions, Asked, Reaches, Fragments, FragmentSays, RemovedGroupGrants, EntryOf;
    var a := GrantActionFor(g, inp.managedGroups)[0];
    HeadShape(inp, g, a);
    CrossedFragment(inp, dir, before, after, a);
    forall path
      ensures EntryOf(after.acl, AclKey(ByGroup(g.name), path)) ==
              Regroup(EntryOf(before.acl, AclKey(ByGroup(g.name), path)), after.acl.tree, g.fileGrants,
                      RemovedGroupGrants(g.name, g.fileGrants, inp.managedGroups), path)
    {
      ChangedEntry(inp, dir, before, after, g, a, path);
    }
  }

  /** The fragment of a changed group holds its commands under `%` and its name, or does not exist. */
  lemma ChangedGroupSudoers(inp: Inputs, dir: string, before: Machine, after: Machine, g: ResolvedGroup)
    requires GroupStep(inp, dir, before, after) && FindResolvedGroup(inp.groups.value, g.name) == Some(g)
    requires GrantActionFor(g, inp.managedGroups) != []
    ensures SudoersOf(Fragments(after.files, dir), GroupFragment(dir, g.name), "%" + g.name, g.sudoCommands, None)
  {
    hide Applied, RunGrantActions, Fragments, GroupFragment;
    var a := GrantActionFor(g, inp.managedGroups)[0];
    HeadShape(inp, g, a);
    CrossedFragment(inp, dir, before, after, a);
    SaysIsSudoers(Fragments(after.files, dir), GroupFragment(dir, g.name), "%" + g.name, g.sudoCommands, None);
  }

  // ----- a group that is no longer declared -----

  /** A group torn down has no fragment and no entry where its recorded grants reach. */
  lemma TornDown(inp: Inputs, dir: string, before: Machine, after: Machine, p: ManagedGroup)
    requires GroupStep(inp, dir, before, after)
    requires p in inp.managedGroups && !DeclaredGroup(inp.groups.value, p.name)
    ensures GroupFragment(dir, p.name) !in Fragments(after.files, dir)
    ensures forall path :: Reaches(p.fileGrants, path) ==> EntryOf(after.acl, AclKey(ByGroup(p.name), path)).None?
  {
    hide Applied, RunGrantActions, Reaches, Fragments, FindGroup, FindResolvedGroup, DeclaredGroup, GroupFragment;
    FindGroupUnique(inp.managedGroups, p);
    DeclaredIffFound(inp.groups.value, p.name);
    var a := TeardownFor(p);
    assert a in RunGrantActions(inp) by { GrantActionOn(inp, a); }
    CrossedFragment(inp, dir, before, after, a);
    forall path | Reaches(p.fileGrants, path) ensures EntryOf(after.acl, AclKey(ByGroup(p.name), path)).None? {
      GroupActedOn(inp, dir, before, after, a, path);
      NothingReaches(path);
      DroppedReaches(p.fileGrants, [], path);
    }
  }

  /** The grants reach nothing that exists. */
  ghost predicate Grantless(tree: seq<string>, grants: seq<Grant>) {
    forall path :: Asked(tree, grants, path).None?
  }

  /**
   A group that is still required but no longer declared: its grants are torn
   down while its record is carried over, so the record tells the truth exactly
   when it has no grants to lose.
   */
  lemma CarriedRecordIsTrueIff(inp: Inputs, dir: string, before: Machine, after: Machine, p: ManagedGroup)
    requires GroupStep(inp, dir, before, after)
    requires p in inp.managedGroups && !DeclaredGroup(inp.groups.value, p.name)
    ensures GroupDescribes(p, after, dir) <==> p.sudoCommands == [] && Grantless(after.acl.tree, p.fileGrants)
  {
    hide GroupStep, Reaches, Fragments, GroupFragment, EntryOf;
    TornDown(inp, dir, before, after, p);
    if GroupDescribes(p, after, dir) {
      forall path ensures Asked(after.acl.tree, p.fileGrants, path).None? {
        if Asked(after.acl.tree, p.fileGrants, path).Some? {
          assert EntryOf(after.acl, AclKey(ByGroup(p.name), path)).None?;
        }
      }
    }
  }

  lemma {:induction false} FindGroupUnique(records: seq<ManagedGroup>, p: ManagedGroup)
    requires UniqueGroupRecords(records) && p in records
    ensures FindGroup(records, p.name) == Some(p)
  {
    if records[0] != p {
      var i :| 0 <= i < |records| && records[i] == p;
      assert records[1..][i - 1] == p;
      FindGroupUnique(records[1..], p);
    }
  }

  // ----- a declared group the plan leaves alone -----

  /** No account's action rewrites the fragment of this group, unless neither has a rule. */
  predicate Unclaimed(inp: Inputs, n: string, rule: Option<SudoRule>)
    requires inp.targets.Some?
  {
    forall b :: b in RunActions(inp) && b.Name() == "grp-" + n ==> rule.None? && RuleFor(b).None?
  }

  lemma NoActionOnUnchanged(inp: Inputs, g: ResolvedGroup)
    requires inp.groups.Some? && UniqueDeclared(inp.groups.value) && UniqueGroupRecords(inp.managedGroups)
    requires FindResolvedGroup(inp.groups.value, g.name) == Some(g) && GrantActionFor(g, inp.managedGroups) == []
    ensures forall a :: a in RunGrantActions(inp) ==> a.name != g.name
  {
    hide RunGrantActions;
    forall a | a in RunGrantActions(inp) ensures a.name != g.name { GrantActionOn(inp, a); }
  }

  lemma UnchangedFragment(inp: Inputs, dir: string, before: Machine, after: Machine, g: ResolvedGroup)
    requires GroupStep(inp, dir, before, after) && FindResolvedGroup(inp.groups.value, g.name) == Some(g)
    requires GrantActionFor(g, inp.managedGroups) == []
    ensures SameAt(AccountFragments(inp, dir, before), Fragments(after.files, dir), GroupFragment(dir, g.name))
  {
    hide RunActions, RunGrantActions, Fragments, AccountFragments, GroupFragment, FragmentsAfter, GroupFragmentsAfter;
    NoActionOnUnchanged(inp, g);
    var grants := RunGrantActions(inp);
    forall i | 0 <= i < |grants| ensures GroupFragment(dir, grants[i].name) != GroupFragment(dir, g.name) {
      assert grants[i] in grants;
      GroupFragmentsDiffer(dir, grants[i].name, g.name);
    }
    FragmentOutsideGroups(AccountFragments(inp, dir, before), dir, inp.groups.value, grants, GroupFragment(dir, g.name));
    AccountFragmentsAre(inp, dir, before, after);
  }

  lemma AccountFragmentsAre(inp: Inputs, dir: string, before: Machine, after: Machine)
    requires inp.targets.Some? && inp.groups.Some? && Applied(inp, dir, before, after)
    ensures Fragments(after.files, dir) == GroupFragmentsAfter(AccountFragments(inp, dir, before), dir, inp.groups.value, RunGrantActions(inp))
  {
    hide RunActions, RunGrantActions, Fragments, GroupFragmentsAfter, FragmentsAfter;
  }

  /** The fragment a group had keeps saying its rule exactly when no account claims it. */
  lemma ClaimedFragment(inp: Inputs, dir: string, before: Machine, after: Machine, g: ResolvedGroup)
    requires GroupStep(inp, dir, before, after) && FindResolvedGroup(inp.groups.value, g.name) == Some(g)
    requires GrantActionFor(g, inp.managedGroups) == []
    requires FragmentSays(Fragments(before.files, dir), GroupFragment(dir, g.name), GroupRule(g.name, g.sudoCommands))
    ensures FragmentSays(Fragments(after.files, dir), GroupFragment(dir, g.name), GroupRule(g.name, g.sudoCommands))
            <==> Unclaimed(inp, g.name, GroupRule(g.name, g.sudoCommands))
  {
    hide Applied, RunActions, RunGrantActions, Fragments, AccountFragments, GroupFragment, AccountFragment, SameRule, GroupRule, AccountRule;
    var rule := GroupRule(g.name, g.sudoCommands);
    UnchangedFragment(inp, dir, before, after, g);
    FragmentsCollideIff(dir, "grp-" + g.name, g.name);
    if b :| b in RunActions(inp) && b.Name() == "grp-" + g.name {
      RunActionsDistinct(inp);
      forall c | c in RunActions(inp) && c.Name() == b.Name() ensures c == b { SameNameSameAction(RunActions(inp), b, c); }
      FragmentOfTouched(inp, dir, before, b);
      SayBoth(Fragments(after.files, dir), GroupFragment(dir, g.name), RuleFor(b), rule);
      RuleOfName(b);
      RulesNeverMeet(g.name, RuleFor(b), g.name, g.sudoCommands);
      SameRuleSymmetric(rule, RuleFor(b));
    } else {
      assert !Touches(RunActions(inp), "grp-" + g.name);
      FragmentOfUntouched(inp, dir, before, "grp-" + g.name);
    }
  }

  lemma SameNameSameAction(actions: seq<Action>, a: Action, b: Action)
    requires DistinctNames(actions) && a in actions && b in actions && a.Name() == b.Name()
    ensures a == b
  {
    var i :| 0 <= i < |actions| && actions[i] == a;
    var j :| 0 <= j < |actions| && actions[j] == b;
  }

  lemma RuleOfName(a: Action)
    ensures RuleFor(a).Some? ==> RuleFor(a).value.subject == a.Name()
  {
  }

  lemma SameGroupRule(p: ManagedGroup, g: ResolvedGroup, fragments: Tree, path: Path)
    requires p.name == g.name && GroupInSync(g, p) && FragmentSays(fragments, path, GroupRule(p.name, p.sudoCommands))
    ensures FragmentSays(fragments, path, GroupRule(g.name, g.sudoCommands))
  {
    assert |multiset(p.sudoCommands)| == |p.sudoCommands| && |multiset(g.sudoCommands)| == |g.sudoCommands|;
  }

  /** Lists with the same items reach the same paths. */
  lemma SameItemsReach(a: seq<Grant>, b: seq<Grant>, path: string)
    requires SameItems(a, b)
    ensures Reaches(a, path) <==> Reaches(b, path)
  {
    hide AtOrUnder;
    if Reaches(a, path) { ReachCarries(a, b, path); }
    if Reaches(b, path) { ReachCarries(b, a, path); }
  }

  lemma ReachCarries(a: seq<Grant>, b: seq<Grant>, path: string)
    requires SameItems(a, b) && Reaches(a, path)
    ensures Reaches(b, path)
  {
    hide AtOrUnder;
    var i :| 0 <= i < |a| && AtOrUnder(a[i].path, path);
    assert a[i] in multiset(a);
    assert a[i] in multiset(b);
    assert a[i] in b;
  }

  lemma UnchangedEntriesIff(inp: Inputs, dir: string, before: Machine, after: Machine, p: ManagedGroup, g: ResolvedGroup)
    requires GroupStep(inp, dir, before, after) && FindResolvedGroup(inp.groups.value, g.name) == Some(g)
    requires FindGroup(inp.managedGroups, g.name) == Some(p) && GroupInSync(g, p) && HasGroupEntries(before.acl, g.name, p.fileGrants)
    ensures HasGroupEntries(after.acl, g.name, p.fileGrants)
    ensures HasGroupEntries(after.acl, g.name, g.fileGrants) <==> SamePerms(after.acl.tree, p.fileGrants, g.fileGrants)
  {
    hide Applied, RunGrantActions, Reaches, EntryOf, FindGroup, FindResolvedGroup;
    NoActionOnUnchanged(inp, g);
    TreeStays(inp, dir, before, after);
    forall path
      ensures EntryOf(after.acl, AclKey(ByGroup(g.name), path)) == EntryOf(before.acl, AclKey(ByGroup(g.name), path))
      ensures Reaches(p.fileGrants, path) <==> Reaches(g.fileGrants, path)
    {
      GroupLeftAlone(inp, dir, before, after, g.name, path);
      SameItemsReach(p.fileGrants, g.fileGrants, path);
    }
    if HasGroupEntries(after.acl, g.name, g.fileGrants) {
      forall path ensures Asked(after.acl.tree, p.fileGrants, path) == Asked(after.acl.tree, g.fileGrants, path) {
        assert Asked(after.acl.tree, g.fileGrants, path).Some? ==>
          EntryOf(after.acl, AclKey(ByGroup(g.name), path)) == Asked(after.acl.tree, g.fileGrants, path);
      }
    }
  }

  /** What described it before still does, if no account claims its fragment and its grants kept their order. */
  lemma UnchangedGroupIsDescribedIff(inp: Inputs, dir: string, before: Machine, after: Machine, p: ManagedGroup, g: ResolvedGroup, record: ManagedGroup)
    requires GroupStep(inp, dir, before, after) && FindResolvedGroup(inp.groups.value, g.name) == Some(g)
    requires FindGroup(inp.managedGroups, g.name) == Some(p) && GroupInSync(g, p) && GroupDescribes(p, before, dir)
    requires record.name == g.name && record.sudoCommands == g.sudoCommands && record.fileGrants == g.fileGrants
    ensures GroupDescribes(record, after, dir) <==>
            Unclaimed(inp, g.name, GroupRule(g.name, g.sudoCommands)) && SamePerms(after.acl.tree, p.fileGrants, g.fileGrants)
  {
    hide Applied, RunActions, RunGrantActions, Fragments, FragmentSays, HasGroupEntries, SamePerms, Unclaimed, GroupFragment, GroupRule;
    SameGroupRule(p, g, Fragments(before.files, dir), GroupFragment(dir, g.name));
    ClaimedFragment(inp, dir, before, after, g);
    UnchangedEntriesIff(inp, dir, before, after, p, g);
  }

  /** A group the run knows: declared now, or recorded from before. */
  predicate KnownGroup(inp: Inputs, g: string)
    requires inp.groups.Some?
  {
    DeclaredGroup(inp.groups.value, g) || FindGroup(inp.managedGroups, g).Some?
  }

  /** When the record a run leaves of a group is the truth, read off the plan. */
  ghost predicate RecordHolds(inp: Inputs, tree: seq<string>, n: string)
    requires inp.targets.Some? && inp.groups.Some?
  {
    var p := FindGroup(inp.managedGroups, n);
    match FindResolvedGroup(inp.groups.value, n)
    case Some(g) =>
      if GrantActionFor(g, inp.managedGroups) != []
      then !Severed(tree, g.fileGrants, RemovedGroupGrants(n, g.fileGrants, inp.managedGroups))
      else Unclaimed(inp, n, GroupRule(n, g.sudoCommands)) && p.Some? && SamePerms(tree, p.value.fileGrants, g.fileGrants)
    case None => p.Some? ==> p.value.sudoCommands == [] && Grantless(tree, p.value.fileGrants)
  }

  /**
   The group ledger: starting from records that describe the machine, the new
   record of a known group describes it too, exactly when `RecordHolds`.
   */
  lemma GroupRecordIsTrueIff(inp: Inputs, dir: string, before: Machine, after: Machine, created: seq<CreatedGroup>, n: string)
    requires GroupStep(inp, dir, before, after) && KnownGroup(inp, n)
    requires forall p :: p in inp.managedGroups ==> GroupDescribes(p, before, dir)
    requires DeclaredGroup(inp.groups.value, n) || Required(RunRequired(inp), n)
    ensures FindGroup(GroupRecords(inp, created), n).Some?
    ensures GroupDescribes(FindGroup(GroupRecords(inp, created), n).value, after, dir) <==> RecordHolds(inp, before.acl.tree, n)
  {
    hide Applied, GroupDescribes, GroupRecords, Severed, Unclaimed, SamePerms, Grantless, GroupRule, RemovedGroupGrants, GroupInSync, Required;
    TreeStays(inp, dir, before, after);
    DeclaredIffFound(inp.groups.value, n);
    RecordOfGroup(inp, created, n);
    var record := FindGroup(GroupRecords(inp, created), n).value;
    if DeclaredGroup(inp.groups.value, n) {
      var g := FindResolvedGroup(inp.groups.value, n).value;
      if GrantActionFor(g, inp.managedGroups) != [] {
        ChangedGroupIsDescribedIff(inp, dir, before, after, g, record);
      } else {
        UnchangedGroupIsDescribedIff(inp, dir, before, after, FindGroup(inp.managedGroups, n).value, g, record);
      }
    } else {
      CarriedRecordIsTrueIff(inp, dir, before, after, record);
    }
  }

  // ----- what the old record is worth -----

  /** The run leaves everything the record of a group granted. */
  ghost predicate PrivilegeKept(inp: Inputs, tree: seq<string>, p: ManagedGroup)
    requires inp.targets.Some? && inp.groups.Some?
  {
    match FindResolvedGroup(inp.groups.value, p.name)
    case None => p.sudoCommands == [] && Grantless(tree, p.fileGrants)
    case Some(g) =>
      if GroupInSync(g, p) then Unclaimed(inp, p.name, GroupRule(p.name, p.sudoCommands))
      else
        && SameRule(GroupRule(p.name, g.sudoCommands), GroupRule(p.name, p.sudoCommands))
        && EntriesKept(tree, p.fileGrants, g.fileGrants)
  }

  /** Granting `keep` and then revoking the rest leaves what `recorded` asked for. */
  ghost predicate EntriesKept(tree: seq<string>, recorded: seq<Grant>, keep: seq<Grant>) {
    forall path :: Asked(tree, recorded, path).Some? ==>
      !Reaches(Dropped(recorded, keep), path) && Asked(tree, keep, path) == Asked(tree, recorded, path)
  }

  lemma ChangedEntriesKeptIff(inp: Inputs, dir: string, before: Machine, after: Machine, p: ManagedGroup, g: ResolvedGroup, a: GroupAction)
    requires GroupStep(inp, dir, before, after) && FindResolvedGroup(inp.groups.value, g.name) == Some(g)
    requires FindGroup(inp.managedGroups, g.name) == Some(p) && a in RunGrantActions(inp) && a.name == g.name && !TearsDown(a)
    ensures HasGroupEntries(after.acl, g.name, p.fileGrants) <==> EntriesKept(after.acl.tree, p.fileGrants, g.fileGrants)
  {
    hide Applied, RunGrantActions, EntryOf, FindResolvedGroup, FindGroup, Dropped, Reaches;
    forall path | Asked(after.acl.tree, p.fileGrants, path).Some?
      ensures EntryOf(after.acl, AclKey(ByGroup(g.name), path)) == Asked(after.acl.tree, p.fileGrants, path) <==>
              !Reaches(Dropped(p.fileGrants, g.fileGrants), path) && Asked(after.acl.tree, g.fileGrants, path) == Asked(after.acl.tree, p.fileGrants, path)
    {
      ChangedEntry(inp, dir, before, after, g, a, path);
      if !Reaches(g.fileGrants, path) { DroppedReaches(p.fileGrants, g.fileGrants, path); }
    }
  }

  /** A recorded group keeps what its record granted exactly when the declaration still grants it, by the same route. */
  lemma OldGroupRecordIsTrueIff(inp: Inputs, dir: string, before: Machine, after: Machine, p: ManagedGroup)
    requires GroupStep(inp, dir, before, after) && p in inp.managedGroups && GroupDescribes(p, before, dir)
    ensures GroupDescribes(p, after, dir) <==> PrivilegeKept(inp, before.acl.tree, p)
  {
    hide Applied, RunGrantActions, HasGroupEntries, Fragments, FragmentSays, EntriesKept, Unclaimed, Grantless, SameRule, GroupRule, GroupInSync, GroupFragment;
    TreeStays(inp, dir, before, after);
    FindGroupUnique(inp.managedGroups, p);
    DeclaredIffFound(inp.groups.value, p.name);
    var found := FindResolvedGroup(inp.groups.value, p.name);
    if found.None? {
      CarriedRecordIsTrueIff(inp, dir, before, after, p);
    } else if GroupInSync(found.value, p) {
      InSyncRecordIsTrueIff(inp, dir, before, after, p, found.value);
    } else {
      var g := found.value;
      var a := GrantActionFor(g, inp.managedGroups)[0];
      HeadShape(inp, g, a);
      ChangedEntriesKeptIff(inp, dir, before, after, p, g, a);
      CrossedFragment(inp, dir, before, after, a);
      SayBoth(Fragments(after.files, dir), GroupFragment(dir, p.name), GroupRule(p.name, g.sudoCommands), GroupRule(p.name, p.sudoCommands));
    }
  }

  lemma InSyncRecordIsTrueIff(inp: Inputs, dir: string, before: Machine, after: Machine, p: ManagedGroup, g: ResolvedGroup)
    requires GroupStep(inp, dir, before, after) && FindResolvedGroup(inp.groups.value, p.name) == Some(g)
    requires FindGroup(inp.managedGroups, p.name) == Some(p) && GroupInSync(g, p) && GroupDescribes(p, before, dir)
    ensures GroupDescribes(p, after, dir) <==> Unclaimed(inp, p.name, GroupRule(p.name, p.sudoCommands))
  {
    hide Applied, RunActions, RunGrantActions, HasGroupEntries, Fragments, FragmentSays, GroupFragment, SamePerms;
    UnchangedEntriesIff(inp, dir, before, after, p, g);
    SameGroupRule(p, g, Fragments(before.files, dir), GroupFragment(dir, g.name));
    ClaimedFragment(inp, dir, before, after, g);
    InSyncRules(p, g);
    SayEither(Fragments(after.files, dir), GroupFragment(dir, g.name), GroupRule(p.name, p.sudoCommands), GroupRule(g.name, g.sudoCommands));
  }

  lemma InSyncRules(p: ManagedGroup, g: ResolvedGroup)
    requires p.name == g.name && GroupInSync(g, p)
    ensures SameRule(GroupRule(p.name, p.sudoCommands), GroupRule(g.name, g.sudoCommands))
    ensures GroupRule(p.name, p.sudoCommands).None? <==> GroupRule(g.name, g.sudoCommands).None?
  {
    assert |multiset(p.sudoCommands)| == |p.sudoCommands| && |multiset(g.sudoCommands)| == |g.sudoCommands|;
  }

  lemma SayEither(fragments: Tree, p: Path, a: Option<SudoRule>, b: Option<SudoRule>)
    requires SameRule(a, b)
    ensures FragmentSays(fragments, p, a) <==> FragmentSays(fragments, p, b)
  {
    SameRuleSymmetric(a, b);
    if FragmentSays(fragments, p, a) { SayBoth(fragments, p, a, b); }
    if FragmentSays(fragments, p, b) { SayBoth(fragments, p, b, a); }
  }

  /**
   A deferred account keeps its groups but not always what they grant: no group it holds is deleted, yet the
   teardown of an undeclared one goes ahead, so the privilege that came through the group stays exactly when
   the record had none, or the declaration still grants it.
   */
  lemma DeferredGroupPrivilegeIff(inp: Inputs, dir: string, before: Machine, after: Machine, p: ManagedGroup)
    requires GroupStep(inp, dir, before, after) && p in inp.managedGroups && GroupDescribes(p, before, dir)
    requires HeldByDeferred(RunDeferred(inp), inp.managed, p.name)
    ensures DeleteGroup(p.name) !in RunGroupActions(inp)
    ensures Required(RunRequired(inp), p.name)
    ensures !DeclaredGroup(inp.groups.value, p.name) ==> TeardownFor(p) in RunGrantActions(inp)
    ensures GroupDescribes(p, after, dir) <==> PrivilegeKept(inp, before.acl.tree, p)
  {
    hide Applied, RunGrantActions, GroupDescribes, PrivilegeKept, RunDeferred, GroupCreates, GroupDeletes, HeldByDeferred, Required;
    OldGroupRecordIsTrueIff(inp, dir, before, after, p);
    var required := RequiredSpec(inp.targets.value, inp.groups.value);
    KeptGroupActions(GroupCreates(required, inp.facts) + GroupDeletes(required, inp.managedGroups), RunDeferred(inp), inp.managed, DeleteGroup(p.name));
    FoldDeferredRequires(required, RunDeferred(inp), inp.managed, p.name);
    FindGroupUnique(inp.managedGroups, p);
    DeclaredIffFound(inp.groups.value, p.name);
    GrantActionOn(inp, TeardownFor(p));
  }

  /**
   The loss outlives the run: declaring the group again with the very grants
   its record still claims plans nothing for it, so they stay lost.
   */
  lemma LostGrantsStayLost(first: Inputs, second: Inputs, created: seq<CreatedGroup>, p: ManagedGroup, g: ResolvedGroup)
    requires first.targets.Some? && first.groups.Some? && second.groups.Some?
    requires UniqueDeclared(first.groups.value) && UniqueGroupRecords(first.managedGroups)
    requires p in first.managedGroups && !DeclaredGroup(first.groups.value, p.name) && Required(RunRequired(first), p.name)
    requires second.managedGroups == GroupRecords(first, created)
    requires UniqueDeclared(second.groups.value) && FindResolvedGroup(second.groups.value, p.name) == Some(g) && GroupInSync(g, p)
    ensures forall a :: a in RunGrantActions(second) ==> a.name != p.name
  {
    GroupRecordsAreUnique(first, created);
    FindGroupUnique(first.managedGroups, p);
    RecordOfGroup(first, created, p.name);
    forall a | a in RunGrantActions(second) ensures a.name != p.name { GrantActionOn(second, a); }
  }

  // ----- applying twice -----

  /** The same declaration again, over the group records of a first run. */
  function Again(inp: Inputs, created: seq<CreatedGroup>): Inputs
    requires inp.targets.Some? && inp.groups.Some?
  {
    inp.(managedGroups := GroupRecords(inp, created))
  }

  lemma {:induction false} CreateNamesAre(actions: seq<GroupAction>, n: string)
    ensures n in CreateNames(actions) <==> exists i :: 0 <= i < |actions| && actions[i].CreateGroup? && actions[i].name == n
  {
    if actions != [] {
      var k := |actions| - 1;
      CreateNamesAre(actions[..k], n);
      assert forall i :: 0 <= i < k ==> actions[..k][i] == actions[i];
      if n in CreateNames(actions) && !(actions[k].CreateGroup? && actions[k].name == n) {
        var i :| 0 <= i < k && actions[..k][i].CreateGroup? && actions[..k][i].name == n;
        assert actions[i].CreateGroup? && actions[i].name == n;
      }
    }
  }

  /** A run creates exactly the required groups the system lacks. */
  lemma CreatedExactly(inp: Inputs, created: seq<CreatedGroup>, n: string)
    requires inp.targets.Some? && inp.groups.Some? && CreatedFrom(RunGroupActions(inp), created)
    ensures WasCreated(created, n) <==> Required(RequiredSpec(inp.targets.value, inp.groups.value), n) && n !in inp.facts.gids
  {
    var required := RequiredSpec(inp.targets.value, inp.groups.value);
    var all := GroupCreates(required, inp.facts) + GroupDeletes(required, inp.managedGroups);
    CreateNamesAre(RunGroupActions(inp), n);
    assert WasCreated(created, n) <==> n in CreateNames(RunGroupActions(inp)) by {
      if n in CreateNames(RunGroupActions(inp)) {
        var i :| 0 <= i < |CreateNames(RunGroupActions(inp))| && CreateNames(RunGroupActions(inp))[i] == n;
        assert created[i].name == n;
      }
    }
    if n in CreateNames(RunGroupActions(inp)) {
      var i :| 0 <= i < |RunGroupActions(inp)| && RunGroupActions(inp)[i].CreateGroup? && RunGroupActions(inp)[i].name == n;
      var a := RunGroupActions(inp)[i];
      assert a in RunGroupActions(inp);
      KeptGroupActions(all, RunDeferred(inp), inp.managed, a);
      GroupCreatesContain(required, inp.facts, a);
      GroupDeletesContain(required, inp.managedGroups, a);
    }
    if Required(required, n) && n !in inp.facts.gids {
      var i :| 0 <= i < |required| && required[i].name == n;
      var a := CreateGroup(n, required[i].pin);
      GroupCreatesContain(required, inp.facts, a);
      KeptGroupActions(all, RunDeferred(inp), inp.managed, a);
      var j :| 0 <= j < |RunGroupActions(inp)| && RunGroupActions(inp)[j] == a;
    }
  }

  /** A group Census owns after the run without it being declared. */
  ghost predicate OwnedUndeclared(inp: Inputs, n: string)
    requires inp.targets.Some? && inp.groups.Some?
  {
    && !DeclaredGroup(inp.groups.value, n)
    && ((Required(RunRequired(inp), n) && FindGroup(inp.managedGroups, n).Some?)
        || (Required(RequiredSpec(inp.targets.value, inp.groups.value), n) && n !in inp.facts.gids))
  }

  lemma OwnedUndeclaredIsRecorded(inp: Inputs, created: seq<CreatedGroup>, n: string)
    requires inp.targets.Some? && inp.groups.Some? && CreatedFrom(RunGroupActions(inp), created)
    requires UniqueDeclared(inp.groups.value) && UniqueGroupRecords(inp.managedGroups)
    ensures OwnedUndeclared(inp, n) <==>
            FindResolvedGroup(inp.groups.value, n).None? && FindGroup(GroupRecords(inp, created), n).Some?
  {
    RecordOfGroup(inp, created, n);
    CreatedExactly(inp, created, n);
    DeclaredIffFound(inp.groups.value, n);
  }

  /** A declared group is in sync with the record the run has just made of it. */
  lemma DeclaredIsQuiet(inp: Inputs, created: seq<CreatedGroup>, g: ResolvedGroup)
    requires inp.targets.Some? && inp.groups.Some?
    requires UniqueDeclared(inp.groups.value) && UniqueGroupRecords(inp.managedGroups)
    requires FindResolvedGroup(inp.groups.value, g.name) == Some(g)
    ensures GrantActionFor(g, GroupRecords(inp, created)) == []
  {
    hide GroupRecords, RunRequired, FindResolvedGroup, FindGroup, Required;
    RecordOfGroup(inp, created, g.name);
  }

  lemma AgainActsOn(inp: Inputs, created: seq<CreatedGroup>, a: GroupAction)
    requires inp.targets.Some? && inp.groups.Some? && CreatedFrom(RunGroupActions(inp), created)
    requires UniqueDeclared(inp.groups.value) && UniqueGroupRecords(inp.managedGroups)
    ensures a in RunGrantActions(Again(inp, created)) <==>
            OwnedUndeclared(inp, a.name) && FindGroup(GroupRecords(inp, created), a.name).Some?
            && a == TeardownFor(FindGroup(GroupRecords(inp, created), a.name).value)
  {
    GroupRecordsAreUnique(inp, created);
    OwnedUndeclaredIsRecorded(inp, created, a.name);
    GrantActionOn(Again(inp, created), a);
    var g := FindResolvedGroup(inp.groups.value, a.name);
    if g.Some? {
      DeclaredIsQuiet(inp, created, g.value);
    }
  }

  /**
   Applying the same declaration a second time plans no grant work exactly
   when every group Census owns after the first is a declared one.
   */
  lemma SecondApplyIsQuietIff(inp: Inputs, created: seq<CreatedGroup>)
    requires inp.targets.Some? && inp.groups.Some? && CreatedFrom(RunGroupActions(inp), created)
    requires UniqueDeclared(inp.groups.value) && UniqueGroupRecords(inp.managedGroups)
    ensures RunGrantActions(Again(inp, created)) == [] <==> forall n :: !OwnedUndeclared(inp, n)
  {
    hide GroupCreates, GroupRecords, RunGrantActions, OwnedUndeclared, CreatedFrom, RunGroupActions, FindResolvedGroup;
    var again := RunGrantActions(Again(inp, created));
    if again != [] {
      AgainActsOn(inp, created, again[0]);
    } else {
      forall n ensures !OwnedUndeclared(inp, n) {
        OwnedUndeclaredIsRecorded(inp, created, n);
        var r := FindGroup(GroupRecords(inp, created), n);
        if r.Some? { AgainActsOn(inp, created, TeardownFor(r.value)); }
      }
    }
  }
}
