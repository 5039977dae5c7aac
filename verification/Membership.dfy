/**
 The group table after a run: which groups exist, with which GID, and who is in
 them. An account's own list (`usermod -G`, absolute) and a group's member list
 (`gpasswd`, one by one) both write it; the lemmas say what comes of it, user by
 user and group by group, and when the records on both sides stay true.
 */
module MembershipLedger {
  import opened Outcomes
  import opened Records
  import opened Plan
  import opened DiskModel
  import opened ProvisionerModel
  import opened FileAccess
  import opened ApplyPlan
  import opened DeclarationModel
  import opened Transaction
  import opened Effects
  import opened Ledger
  import opened GroupLedger

  // ----- which groups exist -----

  /** A run makes exactly the joined or declared groups the system lacks. */
  lemma MakesExactly(inp: Inputs, n: string)
    requires inp.targets.Some? && inp.groups.Some?
    ensures Makes(RunGroupActions(inp), n) <==>
            (Joined(inp.targets.value, n) || DeclaredGroup(inp.groups.value, n)) && n !in inp.facts.gids
  {
    hide RequiredSpec, RunDeferred, Joined, DeclaredGroup;
    var required := RequiredSpec(inp.targets.value, inp.groups.value);
    var all := GroupCreates(required, inp.facts) + GroupDeletes(required, inp.managedGroups);
    RequiredExactly(inp.targets.value, inp.groups.value, n);
    if Makes(RunGroupActions(inp), n) {
      var i :| 0 <= i < |RunGroupActions(inp)| && RunGroupActions(inp)[i].CreateGroup? && RunGroupActions(inp)[i].name == n;
      var a := RunGroupActions(inp)[i];
      assert a in RunGroupActions(inp);
      KeptGroupActions(all, RunDeferred(inp), inp.managed, a);
      GroupCreatesContain(required, inp.facts, a);
      GroupDeletesContain(required, inp.managedGroups, a);
    }
    if Required(required, n) && n !in inp.facts.gids {
      var i :| 0 <= i < |required| && required[i].name == n;
      var a := CreateGroup(n, required[i].pin);
      GroupCreatesContain(required, inp.facts, a);
      KeptGroupActions(all, RunDeferred(inp), inp.managed, a);
      var j :| 0 <= j < |RunGroupActions(inp)| && RunGroupActions(inp)[j] == a;
    }
  }

  /** Recorded as made by Census. */
  predicate MadeByCensus(managed: seq<ManagedGroup>, n: string) {
    exists i :: 0 <= i < |managed| && managed[i].name == n && managed[i].provenance == Created
  }

  /** And deletes exactly the ones it made, nobody joins or declares, and no deferred account holds. */
  lemma DeletesExactly(inp: Inputs, n: string)
    requires inp.targets.Some? && inp.groups.Some?
    ensures DeleteGroup(n) in RunGroupActions(inp) <==>
            && MadeByCensus(inp.managedGroups, n)
            && !Joined(inp.targets.value, n) && !DeclaredGroup(inp.groups.value, n)
            && !HeldByDeferred(RunDeferred(inp), inp.managed, n)
  {
    hide RequiredSpec, RunDeferred, Joined, DeclaredGroup, HeldByDeferred, GroupCreates, GroupDeletes;
    var required := RequiredSpec(inp.targets.value, inp.groups.value);
    RequiredExactly(inp.targets.value, inp.groups.value, n);
    KeptGroupActions(GroupCreates(required, inp.facts) + GroupDeletes(required, inp.managedGroups), RunDeferred(inp), inp.managed, DeleteGroup(n));
    GroupCreatesContain(required, inp.facts, DeleteGroup(n));
    GroupDeletesContain(required, inp.managedGroups, DeleteGroup(n));
  }

  /** A group exists after a run exactly when it did or was made, and was not deleted; no GID ever changes. */
  lemma GroupExistsIff(inp: Inputs, dir: string, before: Machine, after: Machine, n: string)
    requires inp.targets.Some? && inp.groups.Some? && Applied(inp, dir, before, after)
    ensures n in Groups(after.files).gids <==>
            && (n in Groups(before.files).gids ||
                ((Joined(inp.targets.value, n) || DeclaredGroup(inp.groups.value, n)) && n !in inp.facts.gids))
            && !(&& MadeByCensus(inp.managedGroups, n)
                 && !Joined(inp.targets.value, n) && !DeclaredGroup(inp.groups.value, n)
                 && !HeldByDeferred(RunDeferred(inp), inp.managed, n))
    ensures n in Groups(before.files).gids && n in Groups(after.files).gids ==>
            Groups(after.files).gids[n] == Groups(before.files).gids[n]
  {
    hide RunActions, RunGrantActions, RunGroupActions, Groups, Joined, DeclaredGroup, HeldByDeferred, MadeByCensus;
    MakesExactly(inp, n);
    DeletesExactly(inp, n);
    var made := Made(inp, dir, before, after);
  }

  /** The table after phase 1. */
  ghost function Made(inp: Inputs, dir: string, before: Machine, after: Machine): (made: GroupTable)
    requires inp.targets.Some? && inp.groups.Some? && Applied(inp, dir, before, after)
    ensures Added(Groups(before.files), made, RunGroupActions(inp))
    ensures GroupsAfter(made, inp.managed, RunActions(inp)).Some?
    ensures Groups(after.files) == Without(MembersAfter(GroupsAfter(made, inp.managed, RunActions(inp)).value, inp.groups.value, inp.managedGroups, RunGrantActions(inp)), RunGroupActions(inp))
  {
    var made :|
      && Added(Groups(before.files), made, RunGroupActions(inp))
      && GroupsAfter(made, inp.managed, RunActions(inp)).Some?
      && Groups(after.files) == Without(MembersAfter(GroupsAfter(made, inp.managed, RunActions(inp)).value, inp.groups.value, inp.managedGroups, RunGrantActions(inp)), RunGroupActions(inp));
    made
  }

  /** A declared pin is the GID of the group the run made. */
  lemma PinIsTheGid(inp: Inputs, dir: string, before: Machine, after: Machine, a: GroupAction)
    requires inp.targets.Some? && inp.groups.Some? && Applied(inp, dir, before, after)
    requires a in RunGroupActions(inp) && a.CreateGroup? && a.gid.Some? && a.name in Groups(after.files).gids
    ensures Groups(after.files).gids[a.name] == a.gid.value
  {
    hide RunActions, RunGrantActions, RunGroupActions, Groups;
    var made := Made(inp, dir, before, after);
    var i :| 0 <= i < |RunGroupActions(inp)| && RunGroupActions(inp)[i] == a;
  }

  /**
   A declared group without a pin that the run itself makes: the system gave it a GID, which was read back,
   but its record holds none, because the declaration's record replaces the one that would have kept it.
   */
  lemma DeclaredGroupForgetsItsGid(inp: Inputs, dir: string, before: Machine, after: Machine, created: seq<CreatedGroup>, g: ResolvedGroup)
    requires GroupStep(inp, dir, before, after) && FindResolvedGroup(inp.groups.value, g.name) == Some(g)
    requires g.gid.None? && FindGroup(inp.managedGroups, g.name).None? && g.name !in inp.facts.gids
    ensures g.name in Groups(after.files).gids
    ensures FindGroup(GroupRecords(inp, created), g.name).Some? && FindGroup(GroupRecords(inp, created), g.name).value.gid == None
  {
    hide Applied, GroupRecords, Groups, RunRequired, MadeByCensus;
    DeclaredIffFound(inp.groups.value, g.name);
    GroupExistsIff(inp, dir, before, after, g.name);
    RecordOfGroup(inp, created, g.name);
  }

  // ----- who is in a group after the account phases -----

  lemma {:induction false} UserUntouched(table: GroupTable, managed: seq<ManagedAccount>, actions: seq<Action>, m: Membership)
    requires GroupsAfter(table, managed, actions).Some? && !Touches(actions, m.user)
    ensures m in GroupsAfter(table, managed, actions).value.members <==> m in table.members
  {
    if actions != [] {
      var k := |actions| - 1;
      assert forall i :: 0 <= i < k ==> actions[..k][i] == actions[i];
      assert actions[k].Name() != m.user;
      UserUntouched(table, managed, actions[..k], m);
    }
  }

  /** The group list of an update is written only when it differs from the record's. */
  predicate Regroups(managed: seq<ManagedAccount>, a: Action) {
    && a.Update? && FindAccount(managed, a.account.name).Some?
    && multiset(a.account.groups) != multiset(FindAccount(managed, a.account.name).value.groups)
  }

  /** What the one action on a user makes of a membership. */
  ghost predicate ListedBy(managed: seq<ManagedAccount>, a: Action, was: bool, group: string) {
    match a
    case Create(t) => was || group in t.groups
    case Update(t) => if Regroups(managed, a) then group in t.groups else was
    case Delete(_) => false
  }

  lemma StepLists(table: GroupTable, managed: seq<ManagedAccount>, a: Action, m: Membership)
    requires GroupsStep(table, managed, a).Some? && a.Name() == m.user
    ensures m in GroupsStep(table, managed, a).value.members <==> ListedBy(managed, a, m in table.members, m.group)
  {
  }

  lemma {:induction false} UserTouched(table: GroupTable, managed: seq<ManagedAccount>, actions: seq<Action>, a: Action, m: Membership)
    requires GroupsAfter(table, managed, actions).Some? && DistinctNames(actions) && a in actions && a.Name() == m.user
    ensures m in GroupsAfter(table, managed, actions).value.members <==> ListedBy(managed, a, m in table.members, m.group)
  {
    hide GroupsStep, ListedBy;
    var k := |actions| - 1;
    var init := actions[..k];
    assert forall i :: 0 <= i < k ==> init[i] == actions[i];
    if a == actions[k] {
      assert !Touches(init, m.user);
      UserUntouched(table, managed, init, m);
      StepLists(GroupsAfter(table, managed, init).value, managed, a, m);
    } else {
      UserTouched(table, managed, init, a, m);
      var i :| 0 <= i < k && actions[i] == a;
      StepLeavesOthers(GroupsAfter(table, managed, init).value, managed, actions[k], m);
    }
  }

  lemma StepLeavesOthers(table: GroupTable, managed: seq<ManagedAccount>, a: Action, m: Membership)
    requires GroupsStep(table, managed, a).Some? && a.Name() != m.user
    ensures m in GroupsStep(table, managed, a).value.members <==> m in table.members
  {
  }

  /** Every group an account is created with or moved to exists. */
  lemma {:induction false} ListedGroupsExist(table: GroupTable, managed: seq<ManagedAccount>, actions: seq<Action>, a: Action, g: string)
    requires GroupsAfter(table, managed, actions).Some? && a in actions && !a.Delete? && g in a.account.groups
    requires a.Create? || Regroups(managed, a)
    ensures g in table.gids
  {
    var k := |actions| - 1;
    if a == actions[k] {
      var i :| 0 <= i < |a.account.groups| && a.account.groups[i] == g;
    } else {
      ListedGroupsExist(table, managed, actions[..k], a, g);
    }
  }

  // ----- and after the grant phase -----

  lemma {:induction false} GroupNotReconciled(table: GroupTable, groups: seq<ResolvedGroup>, managed: seq<ManagedGroup>, actions: seq<GroupAction>, m: Membership)
    requires forall a :: a in actions ==> a.name != m.group
    ensures m in MembersAfter(table, groups, managed, actions).members <==> m in table.members
  {
    if actions != [] {
      var k := |actions| - 1;
      assert actions == actions[..k] + [actions[k]];
      GroupNotReconciled(table, groups, managed, actions[..k], m);
    }
  }

  /** Wanted and not yet added comes, added and no longer wanted goes, the rest stays. */
  ghost predicate Kept(was: bool, user: string, added: seq<string>, wanted: seq<string>) {
    (was || (user in wanted && user !in added)) && !(user in added && user !in wanted)
  }

  lemma {:induction false} GroupReconciled(table: GroupTable, groups: seq<ResolvedGroup>, managed: seq<ManagedGroup>, actions: seq<GroupAction>, a: GroupAction, m: Membership)
    requires a in actions && a.name == m.group && forall b :: b in actions && b.name == a.name ==> b == a
    ensures m in MembersAfter(table, groups, managed, actions).members <==>
            Kept(m in table.members, m.user, MembersAdded(managed, a.name), MembersWanted(groups, a))
  {
    var k := |actions| - 1;
    var init := actions[..k];
    assert actions == init + [actions[k]];
    if a in init {
      GroupReconciled(table, groups, managed, init, a, m);
    } else {
      GroupNotReconciled(table, groups, managed, init, m);
    }
  }

  // ----- a whole run -----

  /** What the account phases leave of a membership. */
  ghost predicate Listed(inp: Inputs, before: GroupTable, m: Membership)
    requires inp.targets.Some? && inp.groups.Some?
  {
    var was := m in before.members && !Makes(RunGroupActions(inp), m.group);
    if exists a :: a in RunActions(inp) && a.Name() == m.user
    then exists a :: a in RunActions(inp) && a.Name() == m.user && ListedBy(inp.managed, a, was, m.group)
    else was
  }

  /** What the grant phase makes of it. */
  ghost predicate Reconciles(inp: Inputs, listed: bool, m: Membership)
    requires inp.targets.Some? && inp.groups.Some?
  {
    if exists a :: a in RunGrantActions(inp) && a.name == m.group
    then exists a :: a in RunGrantActions(inp) && a.name == m.group
                     && Kept(listed, m.user, MembersAdded(inp.managedGroups, m.group), MembersWanted(inp.groups.value, a))
    else listed
  }

  /** What both leave of it. */
  ghost predicate Member(inp: Inputs, before: GroupTable, m: Membership)
    requires inp.targets.Some? && inp.groups.Some?
  {
    Reconciles(inp, Listed(inp, before, m), m)
  }

  lemma ListedAfterAccounts(inp: Inputs, before: GroupTable, made: GroupTable, m: Membership)
    requires inp.targets.Some? && inp.groups.Some? && UniqueTargets(inp.targets.value) && UniqueNames(inp.managed)
    requires Added(before, made, RunGroupActions(inp)) && GroupsAfter(made, inp.managed, RunActions(inp)).Some?
    ensures m in GroupsAfter(made, inp.managed, RunActions(inp)).value.members <==> Listed(inp, before, m)
  {
    hide RunActions, RunGroupActions, ListedBy, GroupsAfter;
    RunActionsDistinct(inp);
    if a :| a in RunActions(inp) && a.Name() == m.user {
      UserTouched(made, inp.managed, RunActions(inp), a, m);
      forall b | b in RunActions(inp) && b.Name() == m.user ensures b == a { SameNameSameAction(RunActions(inp), a, b); }
    } else {
      assert !Touches(RunActions(inp), m.user);
      UserUntouched(made, inp.managed, RunActions(inp), m);
    }
  }

  /** The grant phase alone: the one action on the group decides, or none does. */
  lemma ReconciledByRun(inp: Inputs, mid: GroupTable, listed: bool, m: Membership)
    requires inp.targets.Some? && inp.groups.Some? && UniqueDeclared(inp.groups.value) && UniqueGroupRecords(inp.managedGroups)
    requires listed <==> m in mid.members
    ensures m in MembersAfter(mid, inp.groups.value, inp.managedGroups, RunGrantActions(inp)).members <==> Reconciles(inp, listed, m)
  {
    hide RunGrantActions, Kept, MembersAfter, MembersAdded, MembersWanted;
    if a :| a in RunGrantActions(inp) && a.name == m.group {
      forall b | b in RunGrantActions(inp) && b.name == a.name ensures b == a { GrantActionNames(inp, a, b); }
      GroupReconciled(mid, inp.groups.value, inp.managedGroups, RunGrantActions(inp), a, m);
    } else {
      GroupNotReconciled(mid, inp.groups.value, inp.managedGroups, RunGrantActions(inp), m);
    }
  }

  /** Exactly who is in an existing group after a run. */
  lemma MembersExactly(inp: Inputs, dir: string, before: Machine, after: Machine, m: Membership)
    requires GroupStep(inp, dir, before, after) && m.group in Groups(after.files).gids
    ensures m in Groups(after.files).members <==> Member(inp, Groups(before.files), m)
  {
    hide RunActions, RunGrantActions, RunGroupActions, Groups, Listed, Reconciles, MembersAfter, GroupsAfter;
    var made := Made(inp, dir, before, after);
    var mid := GroupsAfter(made, inp.managed, RunActions(inp)).value;
    ListedAfterAccounts(inp, Groups(before.files), made, m);
    ReconciledByRun(inp, mid, Listed(inp, Groups(before.files), m), m);
  }

  /** A changed group: recorded and undeclared users have left, declared and unrecorded ones have come, nobody else moved. */
  lemma ChangedGroupMembers(inp: Inputs, dir: string, before: Machine, after: Machine, g: ResolvedGroup, user: string)
    requires GroupStep(inp, dir, before, after) && g.name in Groups(after.files).gids
    requires FindResolvedGroup(inp.groups.value, g.name) == Some(g) && GrantActionFor(g, inp.managedGroups) != []
    ensures Membership(g.name, user) in Groups(after.files).members <==>
            var recorded := MembersAdded(inp.managedGroups, g.name);
            && (Listed(inp, Groups(before.files), Membership(g.name, user)) || (user in g.members && user !in recorded))
            && !(user in recorded && user !in g.members)
  {
    hide Applied, RunGrantActions, Groups, Listed, MembersAdded;
    var a := GrantActionFor(g, inp.managedGroups)[0];
    HeadShape(inp, g, a);
    forall b | b in RunGrantActions(inp) && b.name == g.name ensures b == a { GrantActionNames(inp, a, b); }
    MembersExactly(inp, dir, before, after, Membership(g.name, user));
  }

  /** A group torn down has lost exactly the members Census had added. */
  lemma TornDownMembers(inp: Inputs, dir: string, before: Machine, after: Machine, p: ManagedGroup, user: string)
    requires GroupStep(inp, dir, before, after) && p.name in Groups(after.files).gids
    requires p in inp.managedGroups && !DeclaredGroup(inp.groups.value, p.name)
    ensures Membership(p.name, user) in Groups(after.files).members <==>
            Listed(inp, Groups(before.files), Membership(p.name, user)) && user !in p.membersAdded
  {
    hide Applied, RunGrantActions, Groups, Listed, FindGroup;
    FindGroupUnique(inp.managedGroups, p);
    DeclaredIffFound(inp.groups.value, p.name);
    var a := TeardownFor(p);
    assert a in RunGrantActions(inp) by { GrantActionOn(inp, a); }
    forall b | b in RunGrantActions(inp) && b.name == p.name ensures b == a { GrantActionNames(inp, a, b); }
    MembersExactly(inp, dir, before, after, Membership(p.name, user));
  }

  /** A user no account action names is left where it was by the account phases. */
  lemma ForeignUserIsListed(inp: Inputs, before: GroupTable, m: Membership)
    requires inp.targets.Some? && inp.groups.Some? && !Touches(RunActions(inp), m.user)
    ensures Listed(inp, before, m) <==> m in before.members && !Makes(RunGroupActions(inp), m.group)
  {
    hide RunActions, RunGroupActions;
  }

  // ----- the records -----

  /** An account is in its own groups and in those whose record lists it, and in no others. */
  ghost predicate Enrolled(name: string, own: seq<string>, records: seq<ManagedGroup>, table: GroupTable) {
    forall g :: g in table.gids ==> (Membership(g, name) in table.members <==> g in own || name in MembersAdded(records, g))
  }

  function RecordedGroups(inp: Inputs, t: ResolvedAccount): seq<string> {
    match FindAccount(inp.managed, t.name)
    case Some(m) => m.groups
    case None => []
  }

  /** The membership the run leaves a target, from the two records and the declaration. */
  predicate Lands(inp: Inputs, t: ResolvedAccount, g: string)
    requires inp.targets.Some? && inp.groups.Some?
  {
    var own, recorded := g in t.groups, t.name in MembersAdded(inp.managedGroups, g);
    var newcomer := FindAccount(inp.managed, t.name).None?;
    var listed :=
      if newcomer || Regroups(inp.managed, Update(t)) then own || (newcomer && recorded && !Makes(RunGroupActions(inp), g))
      else (own || recorded) && !Makes(RunGroupActions(inp), g);
    match FindResolvedGroup(inp.groups.value, g)
    case Some(d) => if t.name in d.members then listed || !recorded else listed && !recorded
    case None => listed && !recorded
  }

  /** What the new records claim of it. */
  predicate Claimed(inp: Inputs, t: ResolvedAccount, g: string)
    requires inp.targets.Some? && inp.groups.Some?
  {
    || g in t.groups
    || match FindResolvedGroup(inp.groups.value, g)
       case Some(d) => t.name in d.members
       case None => t.name in MembersAdded(inp.managedGroups, g) && Required(RunRequired(inp), g)
  }

  lemma SameLists(a: seq<string>, b: seq<string>, x: string)
    requires multiset(a) == multiset(b)
    ensures x in a <==> x in b
  {
    assert x in a <==> x in multiset(a);
    assert x in b <==> x in multiset(b);
  }

  /** What the account phases make of a target whose record told the truth. */
  lemma TargetListed(inp: Inputs, before: GroupTable, t: ResolvedAccount, g: string)
    requires inp.targets.Some? && inp.groups.Some? && UniqueTargets(inp.targets.value) && t in inp.targets.value
    requires Makes(RunGroupActions(inp), g) || g in before.gids
    requires Enrolled(t.name, RecordedGroups(inp, t), inp.managedGroups, before)
    ensures var own, recorded := g in t.groups, t.name in MembersAdded(inp.managedGroups, g);
            var newcomer := FindAccount(inp.managed, t.name).None?;
            Listed(inp, before, Membership(g, t.name)) <==>
              if newcomer || Regroups(inp.managed, Update(t)) then own || (newcomer && recorded && !Makes(RunGroupActions(inp), g))
              else (own || recorded) && !Makes(RunGroupActions(inp), g)
  {
    hide RunActions, RunGroupActions, MembersAdded;
    var m := Membership(g, t.name);
    var found := FindAccount(inp.managed, t.name);
    if found.None? {
      OnlyAction(inp, t, Create(t));
    } else if !InSync(t, found.value) {
      OnlyAction(inp, t, Update(t));
      if !Regroups(inp.managed, Update(t)) { SameLists(found.value.groups, t.groups, g); }
    } else {
      NotTouched(inp, t.name);
      ForeignUserIsListed(inp, before, m);
      SameLists(found.value.groups, t.groups, g);
    }
  }

  lemma OnlyAction(inp: Inputs, t: ResolvedAccount, a: Action)
    requires inp.targets.Some? && UniqueTargets(inp.targets.value) && t in inp.targets.value
    requires a == Create(t) || a == Update(t)
    requires CalledFor(inp.targets.value, inp.managed, a)
    ensures a in RunActions(inp) && forall b :: b in RunActions(inp) && b.Name() == t.name ==> b == a
  {
    hide PlannedActions;
    RunActionsExactly(inp, a);
    forall b | b in RunActions(inp) && b.Name() == t.name ensures b == a {
      RunActionsExactly(inp, b);
      if !b.Delete? {
        SameNameSameTarget(inp.targets.value, t, b.account);
      }
    }
  }

  lemma TargetLands(inp: Inputs, dir: string, before: Machine, after: Machine, t: ResolvedAccount, g: string)
    requires GroupStep(inp, dir, before, after) && t in inp.targets.value && g in Groups(after.files).gids
    requires Enrolled(t.name, RecordedGroups(inp, t), inp.managedGroups, Groups(before.files))
    ensures Membership(g, t.name) in Groups(after.files).members <==> Lands(inp, t, g)
  {
    hide RunActions, RunGrantActions, RunGroupActions, Groups, Listed, Regroups, Enrolled;
    MembersExactly(inp, dir, before, after, Membership(g, t.name));
    GroupCameFrom(inp, dir, before, after, g);
    TargetListed(inp, Groups(before.files), t, g);
    var found := FindResolvedGroup(inp.groups.value, g);
    if found.Some? {
      var d := found.value;
      if GrantActionFor(d, inp.managedGroups) != [] {
        ChangedGroupMembers(inp, dir, before, after, d, t.name);
      } else {
        NoActionOnUnchanged(inp, d);
        SameLists(FindGroup(inp.managedGroups, g).value.membersAdded, d.members, t.name);
      }
    } else {
      DeclaredIffFound(inp.groups.value, g);
      var p := FindGroup(inp.managedGroups, g);
      if p.Some? {
        TornDownMembers(inp, dir, before, after, p.value, t.name);
      } else {
        forall a | a in RunGrantActions(inp) ensures a.name != g { GrantActionOn(inp, a); }
      }
    }
  }

  lemma GroupCameFrom(inp: Inputs, dir: string, before: Machine, after: Machine, g: string)
    requires inp.targets.Some? && inp.groups.Some? && Applied(inp, dir, before, after) && g in Groups(after.files).gids
    ensures g in Groups(before.files).gids || Makes(RunGroupActions(inp), g)
  {
    hide RunActions, RunGrantActions, RunGroupActions, Groups;
    var made := Made(inp, dir, before, after);
  }

  lemma NewRecordLists(inp: Inputs, created: seq<CreatedGroup>, t: ResolvedAccount, g: string)
    requires inp.targets.Some? && inp.groups.Some? && UniqueDeclared(inp.groups.value) && UniqueGroupRecords(inp.managedGroups)
    ensures g in t.groups || t.name in MembersAdded(GroupRecords(inp, created), g) <==> Claimed(inp, t, g)
  {
    hide GroupRecords, RunRequired;
    RecordOfGroup(inp, created, g);
  }

  /**
   The membership ledger: a target that was in exactly its recorded groups and the groups that recorded it
   is, after the run, in exactly its declared groups and those whose new record lists it, if and only if for
   every existing group the declaration and the two records land where the new records claim.
   */
  lemma TargetEnrolledIff(inp: Inputs, dir: string, before: Machine, after: Machine, created: seq<CreatedGroup>, t: ResolvedAccount)
    requires GroupStep(inp, dir, before, after) && t in inp.targets.value
    requires Enrolled(t.name, RecordedGroups(inp, t), inp.managedGroups, Groups(before.files))
    ensures Enrolled(t.name, t.groups, GroupRecords(inp, created), Groups(after.files)) <==>
            forall g :: g in Groups(after.files).gids ==> (Lands(inp, t, g) <==> Claimed(inp, t, g))
  {
    hide Applied, GroupRecords, RunRequired, Lands, Claimed, Groups, MembersAdded;
    forall g | g in Groups(after.files).gids
      ensures Membership(g, t.name) in Groups(after.files).members <==> Lands(inp, t, g)
      ensures g in t.groups || t.name in MembersAdded(GroupRecords(inp, created), g) <==> Claimed(inp, t, g)
    {
      TargetLands(inp, dir, before, after, t, g);
      NewRecordLists(inp, created, t, g);
    }
  }

  /** A target that no group lists is in exactly its groups, except in a group made anew under an unchanged account. */
  lemma TargetIsInItsGroups(inp: Inputs, dir: string, before: Machine, after: Machine, t: ResolvedAccount, g: string)
    requires GroupStep(inp, dir, before, after) && t in inp.targets.value && g in Groups(after.files).gids
    requires Enrolled(t.name, RecordedGroups(inp, t), inp.managedGroups, Groups(before.files))
    requires forall d :: d in inp.groups.value ==> t.name !in d.members
    requires forall p :: p in inp.managedGroups ==> t.name !in p.membersAdded
    ensures Membership(g, t.name) in Groups(after.files).members <==>
            g in t.groups && !(Makes(RunGroupActions(inp), g) && FindAccount(inp.managed, t.name).Some? && !Regroups(inp.managed, Update(t)))
  {
    hide Applied, RunGroupActions, Groups, Regroups, Enrolled;
    TargetLands(inp, dir, before, after, t, g);
  }
}
