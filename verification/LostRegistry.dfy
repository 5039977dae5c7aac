/**
 The last step of an apply can fail by itself: the run succeeded, the registry
 could not be written (src/cli/mod.rs). Nothing is rolled back then, and the old
 registry stands beside the new machine.
 */
module LostRegistry {
  import opened Outcomes
  import opened Records
  import opened Plan
  import opened DiskModel
  import opened ProvisionerModel
  import opened FileAccess
  import opened ApplyPlan
  import opened Transaction
  import opened Effects
  import opened Ledger

  /** An update that changes nothing the ledger reads: same shell, same rule, same permissions. */
  ghost predicate Invisible(inp: Inputs, tree: seq<string>, a: Action)
    requires inp.targets.Some? && inp.groups.Some?
  {
    && a.Update?
    && var m := FindAccount(inp.managed, a.account.name);
       && m.Some? && m.value.shell == a.account.shell
       && (Crossed(inp, a.account.name) || SameRule(RecordRule(m.value), TargetRule(a.account)))
       && SamePerms(tree, a.account.fileGrants, m.value.fileGrants)
  }

  /** The old record's fragment, after a run that wrote the target's. */
  lemma OldRuleStandsIff(inp: Inputs, dir: string, owned: set<nat>, before: Machine, after: Machine, t: ResolvedAccount, rule: Option<SudoRule>)
    requires Step(inp, dir, owned, before, after) && t in inp.targets.value && (rule.Some? ==> rule.value.subject == t.name)
    ensures FragmentSays(Fragments(after.files, dir), AccountFragment(dir, t.name), rule) <==>
            Uncontested(inp, t.name, rule) && (Crossed(inp, t.name) || SameRule(rule, TargetRule(t)))
  {
    hide Balanced, Applied, AccountFragments, AccountFragment, Fragments, RunGrantActions, SameRule, TargetRule, GroupRuleFor;
    if a :| a in RunGrantActions(inp) && t.name == "grp-" + a.name {
      CrossedSaysIff(inp, dir, before, after, a, rule);
    } else {
      TargetRuleWritten(inp, dir, owned, before, after, t);
      UncrossedFragment(inp, dir, before, after, t.name);
      SayBoth(Fragments(after.files, dir), AccountFragment(dir, t.name), TargetRule(t), rule);
      SameRuleSymmetric(TargetRule(t), rule);
    }
  }

  lemma CrossedSaysIff(inp: Inputs, dir: string, before: Machine, after: Machine, a: GroupAction, rule: Option<SudoRule>)
    requires inp.targets.Some? && inp.groups.Some? && Applied(inp, dir, before, after) && a in RunGrantActions(inp)
    requires rule.Some? ==> rule.value.subject == "grp-" + a.name
    ensures FragmentSays(Fragments(after.files, dir), AccountFragment(dir, "grp-" + a.name), rule) <==>
            Uncontested(inp, "grp-" + a.name, rule)
  {
    hide Applied, RunGrantActions, AccountFragment, GroupFragment, Fragments, SameRule;
    CrossedFragment(inp, dir, before, after, a);
    FragmentsCollideIff(dir, "grp-" + a.name, a.name);
    SayBoth(Fragments(after.files, dir), AccountFragment(dir, "grp-" + a.name), GroupRuleFor(a, inp.groups.value), rule);
    GroupRuleMeets(a, inp.groups.value, rule);
    forall b | b in RunGrantActions(inp) && "grp-" + a.name == "grp-" + b.name
      ensures GroupRuleFor(b, inp.groups.value) == GroupRuleFor(a, inp.groups.value)
    {
      assert ("grp-" + a.name)[4..] == a.name && ("grp-" + b.name)[4..] == b.name;
      GroupRuleByName(inp, a, b);
    }
  }

  /** What the old record of a target is worth after the run. */
  lemma OldRecordOfTargetIff(inp: Inputs, dir: string, owned: set<nat>, before: Machine, after: Machine, t: ResolvedAccount)
    requires Step(inp, dir, owned, before, after) && t in inp.targets.value && FindAccount(inp.managed, t.name).Some?
    ensures var m := FindAccount(inp.managed, t.name).value;
            Describes(m, after, dir) <==>
              && m.shell == t.shell
              && Uncontested(inp, t.name, RecordRule(m)) && (Crossed(inp, t.name) || SameRule(RecordRule(m), TargetRule(t)))
              && SamePerms(after.acl.tree, WrittenGrants(inp, t), m.fileGrants)
  {
    hide Step, TargetRule, Fragments, Accounts, SameRule, FragmentSays, FindAccount, Crossed, Uncontested, SamePerms, Asked, AccountFragment;
    var m := FindAccount(inp.managed, t.name).value;
    FoundIsNamed(inp.managed, t.name);
    TargetAccount(inp, dir, owned, before, after, t);
    TargetKeepsUid(inp, dir, owned, before, after, t);
    OldRuleStandsIff(inp, dir, owned, before, after, t, RecordRule(m));
    forall path ensures EntryOf(after.acl, AclKey(ByUid(m.uid), path)) == Asked(after.acl.tree, WrittenGrants(inp, t), path) {
      TargetEntries(inp, dir, owned, before, after, t, path);
    }
    HasEntriesOf(after.acl, m.uid, WrittenGrants(inp, t), m.fileGrants);
  }

  lemma FoundIsNamed(registry: seq<ManagedAccount>, n: string)
    requires FindAccount(registry, n).Some?
    ensures FindAccount(registry, n).value.name == n && FindAccount(registry, n).value in registry && Recorded(registry, n)
  {
    var m := FindAccount(registry, n).value;
    var i :| 0 <= i < |registry| && registry[i] == m;
  }

  // ----- a visible change makes the old registry wrong -----

  lemma VisibleActionShows(inp: Inputs, dir: string, owned: set<nat>, before: Machine, after: Machine, a: Action)
    requires Step(inp, dir, owned, before, after) && a in RunActions(inp) && Balanced(inp.managed, after, dir, owned)
    ensures Invisible(inp, after.acl.tree, a)
  {
    hide Applied, RunActions, Describes, FindAccount, SameRule, RecordRule, AccountRule, Crossed, Uncontested, SamePerms;
    RunActionsExactly(inp, a);
    match a
    case Create(t) =>
      TargetAccount(inp, dir, owned, before, after, t);
      UnrecordedIsNotFound(inp.managed, t.name);
      assert false;
    case Update(t) =>
      FoundIsNamed(inp.managed, t.name);
      assert Describes(FindAccount(inp.managed, t.name).value, after, dir);
      OldRecordOfTargetIff(inp, dir, owned, before, after, t);
    case Delete(n) =>
      FoundOfRecorded(inp.managed, n);
      var m := FindAccount(inp.managed, n).value;
      FoundIsNamed(inp.managed, n);
      DeleteIsNotDeferred(inp, n);
      DroppedIsGone(inp, dir, owned, before, after, m);
      DescribedStands(m, after, dir);
      assert false;
  }

  lemma DescribedStands(m: ManagedAccount, after: Machine, dir: string)
    requires Describes(m, after, dir)
    ensures m.name in Accounts(after.files)
  {
  }

  lemma UnrecordedIsNotFound(registry: seq<ManagedAccount>, n: string)
    ensures FindAccount(registry, n).None? <==> !Recorded(registry, n)
  {
    if FindAccount(registry, n).Some? { FoundIsNamed(registry, n); }
  }

  lemma FoundOfRecorded(registry: seq<ManagedAccount>, n: string)
    requires Recorded(registry, n)
    ensures FindAccount(registry, n).Some?
  {
  }

  lemma DeleteIsNotDeferred(inp: Inputs, n: string)
    requires inp.targets.Some? && Delete(n) in RunActions(inp)
    ensures n !in RunDeferred(inp)
  {
    hide PlannedActions;
    ExecutedContains(PlannedActions(inp), inp.managed, LiveNow(inp), Delete(n));
    DeferredContains(PlannedActions(inp), inp.managed, LiveNow(inp), n);
  }

  // ----- otherwise it still describes the machine -----

  /** Every action was an invisible update. */
  ghost predicate NothingShows(inp: Inputs, tree: seq<string>)
    requires inp.targets.Some? && inp.groups.Some?
  {
    forall a :: a in RunActions(inp) ==> Invisible(inp, tree, a)
  }

  /** The old fragments are contested by no group. */
  ghost predicate OldFragmentsApart(inp: Inputs)
    requires inp.groups.Some?
  {
    forall m :: m in inp.managed ==> Uncontested(inp, m.name, RecordRule(m))
  }

  lemma OldRecordDescribesIff(inp: Inputs, dir: string, owned: set<nat>, before: Machine, after: Machine, m: ManagedAccount)
    requires Step(inp, dir, owned, before, after) && m in inp.managed && NothingShows(inp, after.acl.tree)
    ensures Describes(m, after, dir) <==> Uncontested(inp, m.name, RecordRule(m))
  {
    hide Applied, RunActions, Describes, FindAccount, SameRule, RecordRule, TargetRule, RunDeferred, Crossed, Uncontested, SamePerms;
    FindIsUnique(inp.managed, m);
    if Declared(inp.targets.value, m.name) {
      var i :| 0 <= i < |inp.targets.value| && inp.targets.value[i].name == m.name;
      var t := inp.targets.value[i];
      OldRecordOfTargetIff(inp, dir, owned, before, after, t);
      if InSync(t, m) {
        SameRuleOnSync(t, m);
        SamePermsSelf(after.acl.tree, m.fileGrants);
      } else {
        RunActionsExactly(inp, Update(t));
        assert Invisible(inp, after.acl.tree, Update(t));
      }
    } else {
      DroppedWaits(inp, after.acl.tree, m);
      DeferredIsDescribedIff(inp, dir, owned, before, after, m);
    }
  }

  lemma SamePermsSelf(tree: seq<string>, grants: seq<Grant>)
    ensures SamePerms(tree, grants, grants)
  {
  }

  lemma DroppedWaits(inp: Inputs, tree: seq<string>, m: ManagedAccount)
    requires inp.targets.Some? && inp.groups.Some? && m in inp.managed && FindAccount(inp.managed, m.name) == Some(m)
    requires !Declared(inp.targets.value, m.name)
    requires NothingShows(inp, tree)
    ensures m.name in RunDeferred(inp)
  {
    hide PlannedActions, Invisible;
    var a := Delete(m.name);
    FoundIsNamed(inp.managed, m.name);
    DiffContains(inp.targets.value, inp.managed, a);
    RunActionsExactly(inp, a);
    assert !Invisible(inp, tree, a) by { DeleteIsVisible(inp, tree, m.name); }
    DeferredContains(PlannedActions(inp), inp.managed, LiveNow(inp), m.name);
    assert PlannedActions(inp) == DiffSpec(inp.targets.value, inp.managed) by { PlanIsDiff(inp); }
  }

  lemma DeleteIsVisible(inp: Inputs, tree: seq<string>, n: string)
    requires inp.targets.Some? && inp.groups.Some?
    ensures !Invisible(inp, tree, Delete(n))
  {
  }

  lemma PlanIsDiff(inp: Inputs)
    requires inp.targets.Some?
    ensures PlannedActions(inp) == DiffSpec(inp.targets.value, inp.managed)
  {
  }

  /** Without a visible action, who is in the new registry was in the old one, with the same UID. */
  lemma NewRecordWasOld(inp: Inputs, dir: string, owned: set<nat>, before: Machine, after: Machine, r: ManagedAccount)
    requires Step(inp, dir, owned, before, after)
    requires NothingShows(inp, after.acl.tree)
    requires r in Registry(inp)
    ensures exists i :: 0 <= i < |inp.managed| && inp.managed[i].name == r.name && inp.managed[i].uid == r.uid
  {
    hide Applied, RunActions, Describes, FindAccount, RunDeferred, Retained;
    NewRegistryHolds(inp, r);
    if t :| t in inp.targets.value && r == RecordFor(t, inp.version, inp.managed) {
      if FindAccount(inp.managed, t.name).None? {
        RunActionsExactly(inp, Create(t));
      }
      FoundIsNamed(inp.managed, t.name);
      TargetKeepsUid(inp, dir, owned, before, after, t);
      var m := FindAccount(inp.managed, t.name).value;
      var i :| 0 <= i < |inp.managed| && inp.managed[i] == m;
      assert r.name == t.name && r.uid == t.uid;
    } else {
      var k :| 0 <= k < |RunDeferred(inp)| && FindAccount(inp.managed, RunDeferred(inp)[k]) == Some(r);
      FoundIsNamed(inp.managed, RunDeferred(inp)[k]);
      var i :| 0 <= i < |inp.managed| && inp.managed[i] == r;
    }
  }

  lemma NothingStrayStill(inp: Inputs, dir: string, owned: set<nat>, before: Machine, after: Machine)
    requires Step(inp, dir, owned, before, after)
    requires NothingShows(inp, after.acl.tree)
    ensures NothingStray(inp.managed, after, dir, owned)
  {
    hide Applied, Describes, Accounts, Fragments, Invisible, RunActions, Registry;
    NewRegistryStrays(inp, dir, owned, before, after);
    var renewed := Registry(inp);
    forall n | Recorded(renewed, n) ensures Recorded(inp.managed, n) {
      var i :| 0 <= i < |renewed| && renewed[i].name == n;
      NewRecordWasOld(inp, dir, owned, before, after, renewed[i]);
    }
    forall u | RecordedUid(renewed, u) ensures RecordedUid(inp.managed, u) {
      var i :| 0 <= i < |renewed| && renewed[i].uid == u;
      NewRecordWasOld(inp, dir, owned, before, after, renewed[i]);
    }
  }

  /**
   When the run succeeded and its registry was lost, the old registry still describes the machine
   exactly when every executed action was an update invisible to the ledger and no group took a fragment.
   */
  lemma OldRegistryHoldsIff(inp: Inputs, dir: string, owned: set<nat>, before: Machine, after: Machine)
    requires Step(inp, dir, owned, before, after)
    ensures Balanced(inp.managed, after, dir, owned) <==> NothingShows(inp, before.acl.tree) && OldFragmentsApart(inp)
  {
    hide Applied, RunActions, Describes, Invisible, NothingStray, Uncontested;
    TreeStays(inp, dir, before, after);
    if Balanced(inp.managed, after, dir, owned) {
      forall a | a in RunActions(inp) ensures Invisible(inp, after.acl.tree, a) { VisibleActionShows(inp, dir, owned, before, after, a); }
    }
    if NothingShows(inp, after.acl.tree) {
      forall m | m in inp.managed ensures Describes(m, after, dir) <==> Uncontested(inp, m.name, RecordRule(m)) {
        OldRecordDescribesIff(inp, dir, owned, before, after, m);
      }
      NothingStrayStill(inp, dir, owned, before, after);
    }
  }
}
