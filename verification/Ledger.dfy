/**
 The account ledger: every recorded account has its recorded UID and shell, the
 sudoers fragment its record calls for, and exactly the ACL entries its grants
 ask for; and nothing in the reserved UID band belongs to an account the
 registry dropped. A successful run carries the ledger over exactly when no
 group takes a fragment its accounts need, and no account kept its grants while
 only their order changed what they mean.
 */
module Ledger {
  import opened Outcomes
  import opened Records
  import opened Plan
  import opened DiskModel
  import opened ProvisionerModel
  import opened FileAccess
  import opened ApplyPlan
  import opened Transaction
  import opened Effects

  /** The fragment at `p` says what `rule` says, up to the order of commands. */
  predicate FragmentSays(fragments: Tree, p: Path, rule: Option<SudoRule>) {
    if rule.None? then p !in fragments
    else p in fragments && fragments[p].Fragment? && SameRule(Some(fragments[p].rule), rule)
  }

  function RecordRule(a: ManagedAccount): Option<SudoRule> {
    AccountRule(a.name, a.sudoCommands, a.sudoRole)
  }

  /** The entries of a UID are exactly those a grant list asks for. */
  ghost predicate HasEntries(acl: Acl, uid: nat, grants: seq<Grant>) {
    forall path :: EntryOf(acl, AclKey(ByUid(uid), path)) == Asked(acl.tree, grants, path)
  }

  /** One record describes the machine. */
  ghost predicate Describes(a: ManagedAccount, m: Machine, dir: string) {
    && a.name in Accounts(m.files) && Accounts(m.files)[a.name] == PwEntry(a.uid, a.shell)
    && FragmentSays(Fragments(m.files, dir), AccountFragment(dir, a.name), RecordRule(a))
    && HasEntries(m.acl, a.uid, a.fileGrants)
  }

  ghost predicate UniqueUids(registry: seq<ManagedAccount>) {
    forall i, j :: 0 <= i < j < |registry| ==> registry[i].uid != registry[j].uid
  }

  ghost predicate RecordedUid(registry: seq<ManagedAccount>, uid: nat) {
    exists i :: 0 <= i < |registry| && registry[i].uid == uid
  }

  /** Nothing on the machine belongs to an account the registry does not hold. */
  ghost predicate NothingStray(registry: seq<ManagedAccount>, m: Machine, dir: string, owned: set<nat>) {
    && (forall n :: n in Accounts(m.files) && Accounts(m.files)[n].uid in owned ==> Recorded(registry, n))
    && (forall u, path :: u in owned && AclKey(ByUid(u), path) in m.acl.entries ==> RecordedUid(registry, u))
    && (forall n :: AccountFragment(dir, n) in Fragments(m.files, dir) && !("grp-" <= n) ==> Recorded(registry, n))
  }

  ghost predicate Balanced(registry: seq<ManagedAccount>, m: Machine, dir: string, owned: set<nat>) {
    && UniqueNames(registry) && UniqueUids(registry)
    && (forall a :: a in registry ==> a.uid in owned && Describes(a, m, dir))
    && NothingStray(registry, m, dir, owned)
  }

  /** What a declaration and its resolution promise about the targets. */
  ghost predicate SoundInputs(inp: Inputs, owned: set<nat>) {
    && inp.targets.Some? && inp.groups.Some?
    && UniqueTargets(inp.targets.value)
    && (forall t :: t in inp.targets.value ==> t.uid in owned)
  }

  /** The setting of one successful run. */
  ghost predicate Step(inp: Inputs, dir: string, owned: set<nat>, before: Machine, after: Machine) {
    && SoundInputs(inp, owned)
    && Balanced(inp.managed, before, dir, owned)
    && Applied(inp, dir, before, after)
  }

  // ----- the shape of the plan -----

  lemma {:induction false} ExecutedKeepsChanges(actions: seq<Action>, managed: seq<ManagedAccount>, live: LiveSessions)
    requires forall i :: 0 <= i < |actions| ==> !actions[i].Delete?
    ensures Executed(actions, managed, live) == actions
  {
    if actions != [] {
      var n := |actions| - 1;
      ExecutedKeepsChanges(actions[..n], managed, live);
      assert actions == actions[..n] + [actions[n]];
    }
  }

  lemma {:induction false} ExecutedSplits(a: seq<Action>, b: seq<Action>, managed: seq<ManagedAccount>, live: LiveSessions)
    ensures Executed(a + b, managed, live) == Executed(a, managed, live) + Executed(b, managed, live)
  {
    if b == [] {
      assert a + b == a;
    } else {
      var n := |b| - 1;
      ExecutedSplits(a, b[..n], managed, live);
      assert (a + b)[..|a + b| - 1] == a + b[..n];
    }
  }

  /** Creates and updates come first, whatever was deferred. */
  lemma RunActionsOrdered(inp: Inputs, i: nat, j: nat)
    requires inp.targets.Some? && i < |RunActions(inp)| && RunActions(inp)[i].Create? && j < i
    ensures !RunActions(inp)[j].Delete?
  {
    hide Declared, Changes;
    var changes, drops := Changes(inp.targets.value, inp.managed), Drops(inp.targets.value, inp.managed);
    forall k | 0 <= k < |changes| ensures !changes[k].Delete? {
      ChangesContain(inp.targets.value, inp.managed, changes[k]);
    }
    ExecutedSplits(changes, drops, inp.managed, LiveNow(inp));
    ExecutedKeepsChanges(changes, inp.managed, LiveNow(inp));
    if i >= |changes| {
      var late := Executed(drops, inp.managed, LiveNow(inp));
      assert RunActions(inp)[i] == late[i - |changes|];
      assert late[i - |changes|] in late;
      ExecutedContains(drops, inp.managed, LiveNow(inp), RunActions(inp)[i]);
      DropsContain(inp.targets.value, inp.managed, RunActions(inp)[i]);
      assert false;
    }
  }

  lemma RunActionsDistinct(inp: Inputs)
    requires inp.targets.Some? && UniqueTargets(inp.targets.value) && UniqueNames(inp.managed)
    ensures DistinctNames(RunActions(inp))
  {
    DiffIsDistinct(inp.targets.value, inp.managed);
    ExecutedIsDistinct(PlannedActions(inp), inp.managed, LiveNow(inp));
  }

  lemma RunActionsExactly(inp: Inputs, a: Action)
    requires inp.targets.Some?
    ensures a in RunActions(inp) <==>
            && CalledFor(inp.targets.value, inp.managed, a)
            && !(&& a.Delete? && FindAccount(inp.managed, a.name).Some?
                 && (a.name in LiveNow(inp).names || FindAccount(inp.managed, a.name).value.uid in LiveNow(inp).uids))
  {
    ExecutedContains(PlannedActions(inp), inp.managed, LiveNow(inp), a);
    DiffContains(inp.targets.value, inp.managed, a);
  }

  /** An account in sync with its target, or deferred, is named by no action. */
  lemma NotTouched(inp: Inputs, n: string)
    requires inp.targets.Some? && UniqueTargets(inp.targets.value)
    requires
      || (exists t :: t in inp.targets.value && t.name == n && FindAccount(inp.managed, n).Some? && InSync(t, FindAccount(inp.managed, n).value))
      || (!Declared(inp.targets.value, n) && n in RunDeferred(inp))
    ensures !Touches(RunActions(inp), n)
  {
    DeferredContains(PlannedActions(inp), inp.managed, LiveNow(inp), n);
    forall i | 0 <= i < |RunActions(inp)| ensures RunActions(inp)[i].Name() != n {
      var a := RunActions(inp)[i];
      RunActionsExactly(inp, a);
      if !a.Delete? {
        forall t | t in inp.targets.value && t.name == a.Name() ensures t == a.account {
          SameNameSameTarget(inp.targets.value, t, a.account);
        }
      }
    }
  }

  lemma SameNameSameTarget(targets: seq<ResolvedAccount>, s: ResolvedAccount, t: ResolvedAccount)
    requires UniqueTargets(targets) && s in targets && t in targets && s.name == t.name
    ensures s == t
  {
    var i :| 0 <= i < |targets| && targets[i] == s;
    var j :| 0 <= j < |targets| && targets[j] == t;
  }

  // ----- accounts after a run -----

  lemma TargetAccount(inp: Inputs, dir: string, owned: set<nat>, before: Machine, after: Machine, t: ResolvedAccount)
    requires Step(inp, dir, owned, before, after) && t in inp.targets.value
    ensures t.name in Accounts(after.files) && Accounts(after.files)[t.name] == PwEntry(t.uid, t.shell)
  {
    hide PlannedActions, Executed, Fragments, FragmentSays, HasEntries, Accounts, AccountsAfter, Install;
    RunActionsDistinct(inp);
    var accounts := Accounts(before.files);
    var found := FindAccount(inp.managed, t.name);
    if found.None? {
      RunActionsExactly(inp, Create(t));
      AccountTouched(accounts, inp.managed, RunActions(inp), Create(t));
    } else if !InSync(t, found.value) {
      RunActionsExactly(inp, Update(t));
      AccountTouched(accounts, inp.managed, RunActions(inp), Update(t));
    } else {
      NotTouched(inp, t.name);
      AccountUntouched(accounts, inp.managed, RunActions(inp), t.name);
    }
  }

  lemma DeferredAccount(inp: Inputs, dir: string, owned: set<nat>, before: Machine, after: Machine, n: string)
    requires Step(inp, dir, owned, before, after) && n in RunDeferred(inp)
    ensures FindAccount(inp.managed, n).Some? && !Declared(inp.targets.value, n) && !Touches(RunActions(inp), n)
    ensures n in Accounts(before.files) && n in Accounts(after.files) && Accounts(after.files)[n] == Accounts(before.files)[n]
  {
    DeferredContains(PlannedActions(inp), inp.managed, LiveNow(inp), n);
    DiffContains(inp.targets.value, inp.managed, Delete(n));
    NotTouched(inp, n);
    AccountUntouched(Accounts(before.files), inp.managed, RunActions(inp), n);
  }

  /** A created account's UID is none of the recorded ones. */
  lemma CreatedUidUnrecorded(inp: Inputs, dir: string, owned: set<nat>, before: Machine, after: Machine, t: ResolvedAccount, m: ManagedAccount)
    requires Step(inp, dir, owned, before, after)
    requires t in inp.targets.value && FindAccount(inp.managed, t.name).None? && m in inp.managed
    ensures t.uid != m.uid
  {
    RunActionsExactly(inp, Create(t));
    var i :| 0 <= i < |RunActions(inp)| && RunActions(inp)[i] == Create(t);
    forall j | 0 <= j < i ensures !RunActions(inp)[j].Delete? { RunActionsOrdered(inp, i, j); }
    CreatedUidIsNew(Accounts(before.files), inp.managed, RunActions(inp), i, m.name);
  }

  // ----- fragments after a run -----

  lemma HeadIsDeclared(groups: seq<ResolvedGroup>, managed: seq<ManagedGroup>, a: GroupAction)
    requires a in GrantHeads(groups, managed)
    ensures DeclaredGroup(groups, a.name)
  {
    GrantHeadsContain(groups, managed, a);
    var i :| 0 <= i < |groups| && a in GrantActionFor(groups[i], managed);
    assert groups[i].name == a.name;
  }

  /** The rule a group's action installs depends on the group alone. */
  lemma GroupRuleByName(inp: Inputs, a: GroupAction, b: GroupAction)
    requires inp.groups.Some? && a in RunGrantActions(inp) && b in RunGrantActions(inp) && a.name == b.name
    ensures GroupRuleFor(a, inp.groups.value) == GroupRuleFor(b, inp.groups.value)
  {
    TearsDownIff(inp, a);
    TearsDownIff(inp, b);
  }

  lemma TearsDownIff(inp: Inputs, a: GroupAction)
    requires inp.groups.Some? && a in RunGrantActions(inp)
    ensures TearsDown(a) <==> !DeclaredGroup(inp.groups.value, a.name)
  {
    hide DeclaredGroup, GrantHeads, GrantTeardowns, FindGroup, GroupInSync;
    if a in GrantHeads(inp.groups.value, inp.managedGroups) {
      HeadIsDeclared(inp.groups.value, inp.managedGroups, a);
      GrantHeadsContain(inp.groups.value, inp.managedGroups, a);
    } else {
      GrantTeardownsContain(inp.groups.value, inp.managedGroups, a);
    }
  }

  /** What the account phases make of the fragments, before any group is touched. */
  function AccountFragments(inp: Inputs, dir: string, before: Machine): Tree
    requires inp.targets.Some?
  {
    FragmentsAfter(Fragments(before.files, dir), dir, RunActions(inp))
  }

  /** The group phases rewrite the fragment of this account name. */
  predicate Crossed(inp: Inputs, n: string)
    requires inp.groups.Some?
  {
    exists a :: a in RunGrantActions(inp) && n == "grp-" + a.name
  }

  /** No group's action writes or clears a fragment that has to say something else. */
  predicate Uncontested(inp: Inputs, n: string, rule: Option<SudoRule>)
    requires inp.groups.Some?
  {
    forall a :: a in RunGrantActions(inp) && n == "grp-" + a.name ==> rule.None? && GroupRuleFor(a, inp.groups.value).None?
  }

  /** The group phases leave an uncrossed fragment alone. */
  lemma UncrossedFragment(inp: Inputs, dir: string, before: Machine, after: Machine, n: string)
    requires inp.targets.Some? && inp.groups.Some? && Applied(inp, dir, before, after) && !Crossed(inp, n)
    ensures SameAt(AccountFragments(inp, dir, before), Fragments(after.files, dir), AccountFragment(dir, n))
  {
    hide FragmentsAfter, AccountFragment, GroupFragment, GroupFragmentsAfter;
    var grants := RunGrantActions(inp);
    forall i | 0 <= i < |grants| ensures GroupFragment(dir, grants[i].name) != AccountFragment(dir, n) {
      assert grants[i] in grants;
      FragmentsCollideIff(dir, n, grants[i].name);
    }
    FragmentOutsideGroups(AccountFragments(inp, dir, before), dir, inp.groups.value, grants, AccountFragment(dir, n));
  }

  lemma InstalledSays(was: Tree, now: Tree, p: Path, rule: Option<SudoRule>)
    requires SameAt(Install(was, p, rule), now, p)
    ensures FragmentSays(now, p, rule)
  {
  }

  /** A crossed fragment says what the group's action says. */
  lemma CrossedFragment(inp: Inputs, dir: string, before: Machine, after: Machine, a: GroupAction)
    requires inp.targets.Some? && inp.groups.Some? && Applied(inp, dir, before, after) && a in RunGrantActions(inp)
    ensures FragmentSays(Fragments(after.files, dir), GroupFragment(dir, a.name), GroupRuleFor(a, inp.groups.value))
  {
    hide FragmentsAfter, GroupRuleFor, GroupFragment;
    var grants := RunGrantActions(inp);
    forall b | b in grants && b.name == a.name ensures GroupRuleFor(b, inp.groups.value) == GroupRuleFor(a, inp.groups.value) {
      GroupRuleByName(inp, a, b);
    }
    FragmentOfGroup(AccountFragments(inp, dir, before), dir, inp.groups.value, grants, a);
    InstalledSays(AccountFragments(inp, dir, before), Fragments(after.files, dir), GroupFragment(dir, a.name), GroupRuleFor(a, inp.groups.value));
  }

  /** A fragment that says one thing says exactly what means the same. */
  lemma SayBoth(fragments: Tree, p: Path, a: Option<SudoRule>, b: Option<SudoRule>)
    requires FragmentSays(fragments, p, a)
    ensures FragmentSays(fragments, p, b) <==> SameRule(a, b)
  {
    if a.Some? && b.Some? {
      var c := fragments[p].rule;
      assert SameRule(Some(c), a);
    }
  }

  lemma SameRuleSymmetric(a: Option<SudoRule>, b: Option<SudoRule>)
    ensures SameRule(a, b) <==> SameRule(b, a)
  {
  }

  /** An account's rule and a group's rule never mean the same: their subjects differ. */
  lemma RulesNeverMeet(name: string, rule: Option<SudoRule>, group: string, commands: seq<SudoCommand>)
    requires rule.Some? ==> rule.value.subject == "grp-" + name
    ensures SameRule(GroupRule(group, commands), rule) <==> GroupRule(group, commands).None? && rule.None?
  {
    assert ("grp-" + name)[0] == 'g' && ("%" + group)[0] == '%';
  }

  /** What the account phases put right stays right exactly where no group contests it. */
  lemma ContestedFragment(inp: Inputs, dir: string, before: Machine, after: Machine, n: string, rule: Option<SudoRule>)
    requires inp.targets.Some? && inp.groups.Some? && Applied(inp, dir, before, after)
    requires rule.Some? ==> rule.value.subject == n
    requires FragmentSays(AccountFragments(inp, dir, before), AccountFragment(dir, n), rule)
    ensures FragmentSays(Fragments(after.files, dir), AccountFragment(dir, n), rule) <==> Uncontested(inp, n, rule)
  {
    hide Applied, RunGrantActions, AccountFragments, Fragments, AccountFragment, GroupFragment, SameRule, FindResolvedGroup;
    if Crossed(inp, n) {
      forall a | a in RunGrantActions(inp) && n == "grp-" + a.name
        ensures FragmentSays(Fragments(after.files, dir), AccountFragment(dir, n), rule) <==>
                rule.None? && GroupRuleFor(a, inp.groups.value).None?
      {
        CrossedFragment(inp, dir, before, after, a);
        FragmentsCollideIff(dir, n, a.name);
        SayBoth(Fragments(after.files, dir), AccountFragment(dir, n), GroupRuleFor(a, inp.groups.value), rule);
        GroupRuleMeets(a, inp.groups.value, rule);
      }
    } else {
      UncrossedFragment(inp, dir, before, after, n);
    }
  }

  lemma GroupRuleMeets(a: GroupAction, groups: seq<ResolvedGroup>, rule: Option<SudoRule>)
    requires rule.Some? ==> rule.value.subject == "grp-" + a.name
    ensures SameRule(GroupRuleFor(a, groups), rule) <==> rule.None? && GroupRuleFor(a, groups).None?
  {
    hide FindResolvedGroup;
    var g := FindResolvedGroup(groups, a.name);
    if g.Some? { RulesNeverMeet(a.name, rule, g.value.name, g.value.sudoCommands); }
  }

  lemma FragmentOfUntouched(inp: Inputs, dir: string, before: Machine, n: string)
    requires inp.targets.Some? && !Touches(RunActions(inp), n)
    ensures SameAt(Fragments(before.files, dir), AccountFragments(inp, dir, before), AccountFragment(dir, n))
  {
    forall i | 0 <= i < |RunActions(inp)| ensures AccountFragment(dir, RunActions(inp)[i].Name()) != AccountFragment(dir, n) {
      AccountFragmentsDiffer(dir, RunActions(inp)[i].Name(), n);
    }
    FragmentUntouched(Fragments(before.files, dir), dir, RunActions(inp), AccountFragment(dir, n));
  }

  lemma FragmentOfTouched(inp: Inputs, dir: string, before: Machine, a: Action)
    requires inp.targets.Some? && UniqueTargets(inp.targets.value) && UniqueNames(inp.managed) && a in RunActions(inp)
    ensures FragmentSays(AccountFragments(inp, dir, before), AccountFragment(dir, a.Name()), RuleFor(a))
  {
    hide FragmentsAfter, Fragments, Executed;
    RunActionsDistinct(inp);
    FragmentTouched(Fragments(before.files, dir), dir, RunActions(inp), a);
    InstalledSays(Fragments(before.files, dir), AccountFragments(inp, dir, before), AccountFragment(dir, a.Name()), RuleFor(a));
  }

  function TargetRule(t: ResolvedAccount): Option<SudoRule> {
    AccountRule(t.name, t.sudoCommands, t.sudoRole)
  }

  /** After the account phases a target's fragment says its rule. */
  lemma TargetRuleWritten(inp: Inputs, dir: string, owned: set<nat>, before: Machine, after: Machine, t: ResolvedAccount)
    requires Step(inp, dir, owned, before, after) && t in inp.targets.value
    ensures FragmentSays(AccountFragments(inp, dir, before), AccountFragment(dir, t.name), TargetRule(t))
  {
    hide Applied, Executed, Fragments, AccountFragments, AccountFragment, AccountRule, SameRule;
    var found := FindAccount(inp.managed, t.name);
    if found.None? {
      RunActionsExactly(inp, Create(t));
      FragmentOfTouched(inp, dir, before, Create(t));
    } else if !InSync(t, found.value) {
      RunActionsExactly(inp, Update(t));
      FragmentOfTouched(inp, dir, before, Update(t));
    } else {
      NotTouched(inp, t.name);
      FragmentOfUntouched(inp, dir, before, t.name);
      SameRuleOnSync(t, found.value);
      assert Describes(found.value, before, dir);
      SayBoth(AccountFragments(inp, dir, before), AccountFragment(dir, t.name), RecordRule(found.value), TargetRule(t));
    }
  }

  /** A target's fragment says its rule exactly when no group contests it. */
  lemma TargetFragment(inp: Inputs, dir: string, owned: set<nat>, before: Machine, after: Machine, t: ResolvedAccount)
    requires Step(inp, dir, owned, before, after) && t in inp.targets.value
    ensures FragmentSays(Fragments(after.files, dir), AccountFragment(dir, t.name), TargetRule(t))
            <==> Uncontested(inp, t.name, TargetRule(t))
  {
    hide Applied, Balanced, AccountFragments, Fragments, FragmentSays, Uncontested, AccountFragment;
    TargetRuleWritten(inp, dir, owned, before, after, t);
    ContestedFragment(inp, dir, before, after, t.name, TargetRule(t));
  }

  /** What the sudoers fragment of an account holds, spelled out. */
  ghost predicate SudoersOf(fragments: Tree, p: Path, name: string, commands: seq<SudoCommand>, role: Option<string>) {
    && (commands != [] ==>
          && p in fragments && fragments[p].Fragment? && fragments[p].rule.Commands?
          && fragments[p].rule.subject == name && multiset(fragments[p].rule.commands) == multiset(commands))
    && (commands == [] && role.Some? ==> p in fragments && fragments[p] == Fragment(Alias(name, role.value)))
    && (commands == [] && role.None? ==> p !in fragments)
  }

  lemma SaysIsSudoers(fragments: Tree, p: Path, name: string, commands: seq<SudoCommand>, role: Option<string>)
    ensures FragmentSays(fragments, p, AccountRule(name, commands, role)) <==> SudoersOf(fragments, p, name, commands, role)
  {
  }

  /** Uncontested, a target's fragment holds its commands under its name, else its alias, else does not exist. */
  lemma TargetSudoers(inp: Inputs, dir: string, owned: set<nat>, before: Machine, after: Machine, t: ResolvedAccount)
    requires Step(inp, dir, owned, before, after) && t in inp.targets.value
    ensures SudoersOf(Fragments(after.files, dir), AccountFragment(dir, t.name), t.name, t.sudoCommands, t.sudoRole)
            <==> Uncontested(inp, t.name, TargetRule(t))
  {
    hide Step, FragmentSays, SudoersOf, Uncontested, Fragments, AccountFragment;
    TargetFragment(inp, dir, owned, before, after, t);
    SaysIsSudoers(Fragments(after.files, dir), AccountFragment(dir, t.name), t.name, t.sudoCommands, t.sudoRole);
  }

  /** In-sync records call for the same rule: a permuted list is empty when the other is. */
  lemma SameRuleOnSync(t: ResolvedAccount, m: ManagedAccount)
    requires t.name == m.name && InSync(t, m)
    ensures SameRule(RecordRule(m), TargetRule(t))
  {
    assert |multiset(m.sudoCommands)| == |m.sudoCommands| && |multiset(t.sudoCommands)| == |t.sudoCommands|;
  }

  // ----- entries after a run -----

  /** A target keeps the UID it is recorded with. */
  lemma TargetKeepsUid(inp: Inputs, dir: string, owned: set<nat>, before: Machine, after: Machine, t: ResolvedAccount)
    requires Step(inp, dir, owned, before, after) && t in inp.targets.value && FindAccount(inp.managed, t.name).Some?
    ensures FindAccount(inp.managed, t.name).value.uid == t.uid
  {
    if !InSync(t, FindAccount(inp.managed, t.name).value) {
      RunActionsDistinct(inp);
      RunActionsExactly(inp, Update(t));
      AccountTouched(Accounts(before.files), inp.managed, RunActions(inp), Update(t));
    }
  }

  /** A record and a target with the same UID are the same account. */
  lemma SameUidSameName(inp: Inputs, dir: string, owned: set<nat>, before: Machine, after: Machine, t: ResolvedAccount, m: ManagedAccount)
    requires Step(inp, dir, owned, before, after) && t in inp.targets.value && m in inp.managed && t.uid == m.uid
    ensures t.name == m.name && FindAccount(inp.managed, t.name) == Some(m)
  {
    hide SoundInputs, Applied;
    if FindAccount(inp.managed, t.name).None? {
      CreatedUidUnrecorded(inp, dir, owned, before, after, t, m);
    } else {
      TargetKeepsUid(inp, dir, owned, before, after, t);
      var r := FindAccount(inp.managed, t.name).value;
      var i :| 0 <= i < |inp.managed| && inp.managed[i] == r;
      var j :| 0 <= j < |inp.managed| && inp.managed[j] == m;
    }
  }

  lemma WriterIsTarget(inp: Inputs, dir: string, owned: set<nat>, before: Machine, after: Machine, i: nat, u: nat)
    requires Step(inp, dir, owned, before, after) && i < |RunActions(inp)|
    requires Writes(RunActions(inp)[i], Accounts(after.files), ByUid(u))
    ensures RunActions(inp)[i].account in inp.targets.value && RunActions(inp)[i].account.uid == u
  {
    assert RunActions(inp)[i] in RunActions(inp);
    ActionsAreTargets(inp, RunActions(inp)[i]);
    TargetAccount(inp, dir, owned, before, after, RunActions(inp)[i].account);
  }

  /** Entries of a UID that no deletion is about: only the account phase can have changed them. */
  lemma EntryAfterRun(inp: Inputs, dir: string, before: Machine, after: Machine, k: AclKey)
    requires inp.targets.Some? && inp.groups.Some? && Applied(inp, dir, before, after) && k.holder.ByUid?
    requires forall i :: 0 <= i < |RunActions(inp)| ==> !Strips(RunActions(inp)[i], inp.managed, k.holder)
    ensures EntryOf(after.acl, k) == EntryOf(AclAfter(before.acl, Accounts(after.files), inp.managed, RunActions(inp)).value, k)
  {
    var mid := AclAfter(before.acl, Accounts(after.files), inp.managed, RunActions(inp)).value;
    EntryNotStripped(mid, inp.managed, RunActions(inp), k);
    UserEntryOutsideGroups(AclAfterDeletes(mid, inp.managed, RunActions(inp)), inp.groups.value, inp.managedGroups, RunGrantActions(inp), k);
  }

  /** A deletion strips the UID of a record that no target names. */
  lemma StripperIsDropped(inp: Inputs, i: nat, u: nat)
    requires inp.targets.Some? && i < |RunActions(inp)| && Strips(RunActions(inp)[i], inp.managed, ByUid(u))
    ensures var m := FindAccount(inp.managed, RunActions(inp)[i].name).value;
            m in inp.managed && m.uid == u && m.name == RunActions(inp)[i].name && !Declared(inp.targets.value, m.name)
  {
    assert RunActions(inp)[i] in RunActions(inp);
    RunActionsExactly(inp, RunActions(inp)[i]);
  }

  lemma TargetNotStripped(inp: Inputs, dir: string, owned: set<nat>, before: Machine, after: Machine, t: ResolvedAccount, i: nat)
    requires Step(inp, dir, owned, before, after) && t in inp.targets.value && i < |RunActions(inp)|
    ensures !Strips(RunActions(inp)[i], inp.managed, ByUid(t.uid))
  {
    if Strips(RunActions(inp)[i], inp.managed, ByUid(t.uid)) {
      StripperIsDropped(inp, i, t.uid);
      var m := FindAccount(inp.managed, RunActions(inp)[i].name).value;
      SameUidSameName(inp, dir, owned, before, after, t, m);
    }
  }

  lemma TargetUntouchedEntries(inp: Inputs, dir: string, owned: set<nat>, before: Machine, after: Machine, t: ResolvedAccount, path: string)
    requires Step(inp, dir, owned, before, after) && t in inp.targets.value && !Touches(RunActions(inp), t.name)
    ensures EntryOf(after.acl, AclKey(ByUid(t.uid), path)) == EntryOf(before.acl, AclKey(ByUid(t.uid), path))
  {
    var k := AclKey(ByUid(t.uid), path);
    forall i | 0 <= i < |RunActions(inp)| ensures !Strips(RunActions(inp)[i], inp.managed, k.holder) {
      TargetNotStripped(inp, dir, owned, before, after, t, i);
    }
    forall i | 0 <= i < |RunActions(inp)| ensures !Writes(RunActions(inp)[i], Accounts(after.files), k.holder) {
      if Writes(RunActions(inp)[i], Accounts(after.files), k.holder) {
        WriterIsTarget(inp, dir, owned, before, after, i, t.uid);
        SameUidSameTarget(inp.targets.value, t, RunActions(inp)[i].account);
      }
    }
    EntryAfterRun(inp, dir, before, after, k);
    EntryUntouched(before.acl, Accounts(after.files), inp.managed, RunActions(inp), k);
  }

  lemma SameUidSameTarget(targets: seq<ResolvedAccount>, s: ResolvedAccount, t: ResolvedAccount)
    requires UniqueTargets(targets) && s in targets && t in targets && s.uid == t.uid
    ensures s == t
  {
    var i :| 0 <= i < |targets| && targets[i] == s;
    var j :| 0 <= j < |targets| && targets[j] == t;
  }

  lemma TargetTouchedEntries(inp: Inputs, dir: string, owned: set<nat>, before: Machine, after: Machine, t: ResolvedAccount, i: nat, path: string)
    requires Step(inp, dir, owned, before, after) && t in inp.targets.value
    requires i < |RunActions(inp)| && !RunActions(inp)[i].Delete? && RunActions(inp)[i].account == t
    ensures EntryOf(after.acl, AclKey(ByUid(t.uid), path)) == Rewritten(before.acl, inp.managed, t, AclKey(ByUid(t.uid), path))
  {
    var k := AclKey(ByUid(t.uid), path);
    TargetAccount(inp, dir, owned, before, after, t);
    RunActionsDistinct(inp);
    forall j | 0 <= j < |RunActions(inp)| ensures !Strips(RunActions(inp)[j], inp.managed, k.holder) {
      TargetNotStripped(inp, dir, owned, before, after, t, j);
    }
    forall j | 0 <= j < |RunActions(inp)| && j != i ensures !Writes(RunActions(inp)[j], Accounts(after.files), k.holder) {
      if Writes(RunActions(inp)[j], Accounts(after.files), k.holder) {
        WriterIsTarget(inp, dir, owned, before, after, j, t.uid);
        SameUidSameTarget(inp.targets.value, t, RunActions(inp)[j].account);
      }
    }
    EntryAfterRun(inp, dir, before, after, k);
    EntryTouched(before.acl, Accounts(after.files), inp.managed, RunActions(inp), i, k);
  }

  /** The list a target's entries were last written from: an in-sync target is not written again. */
  function WrittenGrants(inp: Inputs, t: ResolvedAccount): seq<Grant> {
    match FindAccount(inp.managed, t.name)
    case Some(m) => if InSync(t, m) then m.fileGrants else t.fileGrants
    case None => t.fileGrants
  }

  /** After a run a target has exactly the entries of the list it was last written from. */
  lemma TargetEntries(inp: Inputs, dir: string, owned: set<nat>, before: Machine, after: Machine, t: ResolvedAccount, path: string)
    requires Step(inp, dir, owned, before, after) && t in inp.targets.value
    ensures EntryOf(after.acl, AclKey(ByUid(t.uid), path)) == Asked(after.acl.tree, WrittenGrants(inp, t), path)
  {
    hide Applied, PlannedActions, Reaches, GrantedPerm, NothingStray, AccountRule, SameRule, Accounts, Fragments;
    var k := AclKey(ByUid(t.uid), path);
    TreeStays(inp, dir, before, after);
    var found := FindAccount(inp.managed, t.name);
    if found.None? {
      NewTargetEntries(inp, dir, owned, before, after, t, path);
    } else {
      var m := found.value;
      TargetKeepsUid(inp, dir, owned, before, after, t);
      assert Describes(m, before, dir);
      if InSync(t, m) {
        NotTouched(inp, t.name);
        TargetUntouchedEntries(inp, dir, owned, before, after, t, path);
      } else {
        RunActionsExactly(inp, Update(t));
        var i :| 0 <= i < |RunActions(inp)| && RunActions(inp)[i] == Update(t);
        TargetTouchedEntries(inp, dir, owned, before, after, t, i, path);
        if !Reaches(t.fileGrants, path) { DroppedReaches(m.fileGrants, t.fileGrants, path); }
      }
    }
  }

  lemma TreeStays(inp: Inputs, dir: string, before: Machine, after: Machine)
    requires inp.targets.Some? && inp.groups.Some? && Applied(inp, dir, before, after)
    ensures after.acl.tree == before.acl.tree
  {
    hide RunActions, RunGrantActions;
  }

  lemma NewTargetEntries(inp: Inputs, dir: string, owned: set<nat>, before: Machine, after: Machine, t: ResolvedAccount, path: string)
    requires Step(inp, dir, owned, before, after) && t in inp.targets.value && FindAccount(inp.managed, t.name).None?
    ensures EntryOf(after.acl, AclKey(ByUid(t.uid), path)) == Asked(before.acl.tree, t.fileGrants, path)
  {
    hide Applied, PlannedActions, Reaches, GrantedPerm, Describes, Accounts, Fragments;
    var k := AclKey(ByUid(t.uid), path);
    RunActionsExactly(inp, Create(t));
    var i :| 0 <= i < |RunActions(inp)| && RunActions(inp)[i] == Create(t);
    TargetTouchedEntries(inp, dir, owned, before, after, t, i, path);
    if EntryOf(before.acl, k).Some? {
      var j :| 0 <= j < |inp.managed| && inp.managed[j].uid == t.uid;
      CreatedUidUnrecorded(inp, dir, owned, before, after, t, inp.managed[j]);
    }
  }

  /** Two lists ask for the same entries. */
  ghost predicate SamePerms(tree: seq<string>, a: seq<Grant>, b: seq<Grant>) {
    forall path :: Asked(tree, a, path) == Asked(tree, b, path)
  }

  lemma HasEntriesOf(acl: Acl, uid: nat, a: seq<Grant>, b: seq<Grant>)
    requires HasEntries(acl, uid, a)
    ensures HasEntries(acl, uid, b) <==> SamePerms(acl.tree, a, b)
  {
    hide Asked, EntryOf;
    if HasEntries(acl, uid, b) {
      forall path ensures Asked(acl.tree, a, path) == Asked(acl.tree, b, path) {
        assert EntryOf(acl, AclKey(ByUid(uid), path)) == Asked(acl.tree, a, path);
      }
    }
  }

  /** No create or update writes the UID of a record that no target names. */
  lemma UndeclaredNotWritten(inp: Inputs, dir: string, owned: set<nat>, before: Machine, after: Machine, m: ManagedAccount, i: nat)
    requires Step(inp, dir, owned, before, after) && m in inp.managed && !Declared(inp.targets.value, m.name) && i < |RunActions(inp)|
    ensures !Writes(RunActions(inp)[i], Accounts(after.files), ByUid(m.uid))
  {
    if Writes(RunActions(inp)[i], Accounts(after.files), ByUid(m.uid)) {
      WriterIsTarget(inp, dir, owned, before, after, i, m.uid);
      var t := RunActions(inp)[i].account;
      SameUidSameName(inp, dir, owned, before, after, t, m);
    }
  }

  lemma SameUidSameRecord(registry: seq<ManagedAccount>, a: ManagedAccount, b: ManagedAccount)
    requires UniqueUids(registry) && a in registry && b in registry && a.uid == b.uid
    ensures a == b
  {
    var i :| 0 <= i < |registry| && registry[i] == a;
    var j :| 0 <= j < |registry| && registry[j] == b;
  }

  /** The entries of a deferred account stay as they are. */
  lemma DeferredEntries(inp: Inputs, dir: string, owned: set<nat>, before: Machine, after: Machine, m: ManagedAccount)
    requires Step(inp, dir, owned, before, after) && m in inp.managed && m.name in RunDeferred(inp)
    ensures HasEntries(after.acl, m.uid, m.fileGrants)
  {
    hide Asked, Executed, Deferred, NothingStray, Accounts, Fragments;
    FindIsUnique(inp.managed, m);
    DeferredAccount(inp, dir, owned, before, after, m.name);
    TreeStays(inp, dir, before, after);
    assert Describes(m, before, dir);
    forall path ensures EntryOf(after.acl, AclKey(ByUid(m.uid), path)) == EntryOf(before.acl, AclKey(ByUid(m.uid), path)) {
      var k := AclKey(ByUid(m.uid), path);
      forall i | 0 <= i < |RunActions(inp)| ensures !Writes(RunActions(inp)[i], Accounts(after.files), k.holder) {
        UndeclaredNotWritten(inp, dir, owned, before, after, m, i);
      }
      forall i | 0 <= i < |RunActions(inp)| ensures !Strips(RunActions(inp)[i], inp.managed, k.holder) {
        if Strips(RunActions(inp)[i], inp.managed, k.holder) {
          StripperIsDropped(inp, i, m.uid);
          SameUidSameRecord(inp.managed, m, FindAccount(inp.managed, RunActions(inp)[i].name).value);
        }
      }
      EntryAfterRun(inp, dir, before, after, k);
      EntryUntouched(before.acl, Accounts(after.files), inp.managed, RunActions(inp), k);
    }
  }

  /** A deferred account keeps its account and its entries, and its fragment unless a group contests it. */
  lemma DeferredIsDescribedIff(inp: Inputs, dir: string, owned: set<nat>, before: Machine, after: Machine, m: ManagedAccount)
    requires Step(inp, dir, owned, before, after) && m in inp.managed && m.name in RunDeferred(inp)
    ensures m.name in Accounts(after.files) && Accounts(after.files)[m.name] == PwEntry(m.uid, m.shell)
    ensures HasEntries(after.acl, m.uid, m.fileGrants)
    ensures Describes(m, after, dir) <==> Uncontested(inp, m.name, RecordRule(m))
  {
    hide Applied, HasEntries, Executed, Deferred, NothingStray, Fragments, AccountFragments, AccountFragment, Uncontested;
    FindIsUnique(inp.managed, m);
    DeferredAccount(inp, dir, owned, before, after, m.name);
    DeferredEntries(inp, dir, owned, before, after, m);
    assert Describes(m, before, dir);
    FragmentOfUntouched(inp, dir, before, m.name);
    ContestedFragment(inp, dir, before, after, m.name, RecordRule(m));
  }

  lemma DroppedIsDeleted(inp: Inputs, dir: string, owned: set<nat>, before: Machine, after: Machine, m: ManagedAccount)
    requires Step(inp, dir, owned, before, after) && m in inp.managed
    requires !Declared(inp.targets.value, m.name) && m.name !in RunDeferred(inp)
    ensures FindAccount(inp.managed, m.name) == Some(m) && Delete(m.name) in RunActions(inp)
  {
    hide Applied, Describes, NothingStray;
    FindIsUnique(inp.managed, m);
    assert Recorded(inp.managed, m.name);
    DeferredContains(PlannedActions(inp), inp.managed, LiveNow(inp), m.name);
    DiffContains(inp.targets.value, inp.managed, Delete(m.name));
    RunActionsExactly(inp, Delete(m.name));
  }

  lemma DroppedEntry(inp: Inputs, dir: string, owned: set<nat>, before: Machine, after: Machine, m: ManagedAccount, path: string)
    requires Step(inp, dir, owned, before, after) && m in inp.managed
    requires !Declared(inp.targets.value, m.name) && m.name !in RunDeferred(inp)
    ensures AclKey(ByUid(m.uid), path) !in after.acl.entries
  {
    hide Executed, Deferred, NothingStray, Accounts, Fragments, Reaches;
    DroppedIsDeleted(inp, dir, owned, before, after, m);
    var d :| 0 <= d < |RunActions(inp)| && RunActions(inp)[d] == Delete(m.name);
    var k := AclKey(ByUid(m.uid), path);
    forall i | 0 <= i < |RunActions(inp)| ensures !Writes(RunActions(inp)[i], Accounts(after.files), k.holder) {
      UndeclaredNotWritten(inp, dir, owned, before, after, m, i);
    }
    var mid := AclAfter(before.acl, Accounts(after.files), inp.managed, RunActions(inp)).value;
    EntryUntouched(before.acl, Accounts(after.files), inp.managed, RunActions(inp), k);
    assert Describes(m, before, dir);
    NothingReaches(path);
    DroppedReaches(m.fileGrants, [], path);
    EntryStripped(mid, inp.managed, RunActions(inp), d, k);
    UserEntryOutsideGroups(AclAfterDeletes(mid, inp.managed, RunActions(inp)), inp.groups.value, inp.managedGroups, RunGrantActions(inp), k);
  }

  lemma NothingReaches(path: string)
    ensures !Reaches([], path)
  {
  }

  /** A dropped account that is not deferred leaves nothing behind; a group may put its own fragment in its place. */
  lemma DroppedIsGone(inp: Inputs, dir: string, owned: set<nat>, before: Machine, after: Machine, m: ManagedAccount)
    requires Step(inp, dir, owned, before, after) && m in inp.managed
    requires !Declared(inp.targets.value, m.name) && m.name !in RunDeferred(inp)
    ensures m.name !in Accounts(after.files)
    ensures AccountFragment(dir, m.name) !in Fragments(after.files, dir) <==> Uncontested(inp, m.name, None)
    ensures forall path :: AclKey(ByUid(m.uid), path) !in after.acl.entries
  {
    hide Describes, NothingStray, Accounts, Fragments, AccountFragments, AccountFragment, Uncontested, RunActions, RunDeferred;
    DroppedIsDeleted(inp, dir, owned, before, after, m);
    RunActionsDistinct(inp);
    AccountTouched(Accounts(before.files), inp.managed, RunActions(inp), Delete(m.name));
    FragmentOfTouched(inp, dir, before, Delete(m.name));
    ContestedFragment(inp, dir, before, after, m.name, None);
    forall path ensures AclKey(ByUid(m.uid), path) !in after.acl.entries { DroppedEntry(inp, dir, owned, before, after, m, path); }
  }

  // ----- the registry of a run -----

  lemma NewRegistryHolds(inp: Inputs, m: ManagedAccount)
    requires inp.targets.Some?
    ensures m in Registry(inp) <==>
            || (exists t :: t in inp.targets.value && m == RecordFor(t, inp.version, inp.managed))
            || (exists i :: 0 <= i < |RunDeferred(inp)| && FindAccount(inp.managed, RunDeferred(inp)[i]) == Some(m))
  {
    var records := RecordsOf(inp.targets.value, inp.version, inp.managed);
    RetainedContains(RunDeferred(inp), inp.managed, m);
    if m in records {
      var i :| 0 <= i < |records| && records[i] == m;
      assert inp.targets.value[i] in inp.targets.value;
    }
    if t :| t in inp.targets.value && m == RecordFor(t, inp.version, inp.managed) {
      var i :| 0 <= i < |inp.targets.value| && inp.targets.value[i] == t;
      assert records[i] == m;
    }
  }

  ghost predicate NoRepeats(names: seq<string>) { forall i, j :: 0 <= i < j < |names| ==> names[i] != names[j] }

  lemma {:induction false} DeferredAreDistinct(actions: seq<Action>, managed: seq<ManagedAccount>, live: LiveSessions)
    requires DistinctNames(actions)
    ensures NoRepeats(Deferred(actions, managed, live))
  {
    if actions != [] {
      var n := |actions| - 1;
      DeferredAreDistinct(actions[..n], managed, live);
      var head := Deferred(actions[..n], managed, live);
      forall k | 0 <= k < |head| ensures head[k] != actions[n].Name() {
        DeferredContains(actions[..n], managed, live, head[k]);
        var i :| 0 <= i < n && actions[..n][i] == Delete(head[k]);
      }
    }
  }

  lemma {:induction false} RetainedShape(deferred: seq<string>, managed: seq<ManagedAccount>)
    requires forall n :: n in deferred ==> FindAccount(managed, n).Some?
    ensures |Retained(deferred, managed)| == |deferred|
    ensures forall i :: 0 <= i < |deferred| ==> Some(Retained(deferred, managed)[i]) == FindAccount(managed, deferred[i])
  {
    if deferred != [] {
      var n := |deferred| - 1;
      assert deferred == deferred[..n] + [deferred[n]];
      assert FindAccount(managed, deferred[n]).Some?;
      RetainedShape(deferred[..n], managed);
    }
  }

  ghost predicate Apart(a: seq<ManagedAccount>, b: seq<ManagedAccount>) {
    forall i, j :: 0 <= i < |a| && 0 <= j < |b| ==> a[i].name != b[j].name && a[i].uid != b[j].uid
  }

  lemma JoinUnique(a: seq<ManagedAccount>, b: seq<ManagedAccount>)
    requires UniqueNames(a) && UniqueUids(a) && UniqueNames(b) && UniqueUids(b)
    requires Apart(a, b)
    ensures UniqueNames(a + b) && UniqueUids(a + b)
  {
  }

  lemma RetainedIsUnique(deferred: seq<string>, managed: seq<ManagedAccount>)
    requires forall n :: n in deferred ==> FindAccount(managed, n).Some?
    requires NoRepeats(deferred)
    requires UniqueUids(managed)
    ensures UniqueNames(Retained(deferred, managed)) && UniqueUids(Retained(deferred, managed))
  {
    RetainedShape(deferred, managed);
    var kept := Retained(deferred, managed);
    forall i, j | 0 <= i < j < |kept| ensures kept[i].name != kept[j].name && kept[i].uid != kept[j].uid {
      assert FindAccount(managed, deferred[i]) == Some(kept[i]) && FindAccount(managed, deferred[j]) == Some(kept[j]);
      if kept[i].uid == kept[j].uid { SameUidSameRecord(managed, kept[i], kept[j]); }
    }
  }

  lemma RecordsAreUnique(targets: seq<ResolvedAccount>, version: nat, managed: seq<ManagedAccount>)
    requires UniqueTargets(targets)
    ensures UniqueNames(RecordsOf(targets, version, managed)) && UniqueUids(RecordsOf(targets, version, managed))
  {
    var r := RecordsOf(targets, version, managed);
    assert forall i :: 0 <= i < |r| ==> r[i].name == targets[i].name && r[i].uid == targets[i].uid;
  }

  lemma RecordAndRetainedDiffer(inp: Inputs, dir: string, owned: set<nat>, before: Machine, after: Machine, x: ManagedAccount, y: ManagedAccount)
    requires Step(inp, dir, owned, before, after)
    requires x in RecordsOf(inp.targets.value, inp.version, inp.managed) && y in Retained(RunDeferred(inp), inp.managed)
    ensures x.name != y.name && x.uid != y.uid
  {
    hide Balanced, Applied;
    var i :| 0 <= i < |inp.targets.value| && x == RecordFor(inp.targets.value[i], inp.version, inp.managed);
    var t := inp.targets.value[i];
    RetainedContains(RunDeferred(inp), inp.managed, y);
    var j :| 0 <= j < |RunDeferred(inp)| && FindAccount(inp.managed, RunDeferred(inp)[j]) == Some(y);
    DeferredAccount(inp, dir, owned, before, after, y.name);
    if t.uid == y.uid { SameUidSameName(inp, dir, owned, before, after, t, y); }
  }

  lemma RunDeferredDistinct(inp: Inputs)
    requires inp.targets.Some? && UniqueTargets(inp.targets.value) && UniqueNames(inp.managed)
    ensures NoRepeats(RunDeferred(inp))
    ensures forall n :: n in RunDeferred(inp) ==> FindAccount(inp.managed, n).Some?
  {
    hide Deferred, DistinctNames, NoRepeats;
    DiffIsDistinct(inp.targets.value, inp.managed);
    DeferredAreDistinct(PlannedActions(inp), inp.managed, LiveNow(inp));
    forall n | n in RunDeferred(inp) ensures FindAccount(inp.managed, n).Some? {
      DeferredContains(PlannedActions(inp), inp.managed, LiveNow(inp), n);
    }
  }

  lemma RecordsApart(inp: Inputs, dir: string, owned: set<nat>, before: Machine, after: Machine)
    requires Step(inp, dir, owned, before, after)
    ensures Apart(RecordsOf(inp.targets.value, inp.version, inp.managed), Retained(RunDeferred(inp), inp.managed))
  {
    var records, kept := RecordsOf(inp.targets.value, inp.version, inp.managed), Retained(RunDeferred(inp), inp.managed);
    forall i, j | 0 <= i < |records| && 0 <= j < |kept|
      ensures records[i].name != kept[j].name && records[i].uid != kept[j].uid
    {
      RecordAndRetainedDiffer(inp, dir, owned, before, after, records[i], kept[j]);
    }
  }

  /** The new registry again has one record per name and per UID. */
  lemma NewRegistryIsUnique(inp: Inputs, dir: string, owned: set<nat>, before: Machine, after: Machine)
    requires Step(inp, dir, owned, before, after)
    ensures UniqueNames(Registry(inp))
    ensures UniqueUids(Registry(inp))
  {
    RunDeferredDistinct(inp);
    RetainedIsUnique(RunDeferred(inp), inp.managed);
    RecordsAreUnique(inp.targets.value, inp.version, inp.managed);
    RecordsApart(inp, dir, owned, before, after);
    JoinUnique(RecordsOf(inp.targets.value, inp.version, inp.managed), Retained(RunDeferred(inp), inp.managed));
  }

  /** An in-sync target means what its record means, although its grants may be listed in another order. */
  ghost predicate SameMeaning(inp: Inputs, tree: seq<string>, t: ResolvedAccount) {
    SamePerms(tree, WrittenGrants(inp, t), t.fileGrants)
  }

  /** The record of a target is the target, field by field; its version moves when a compared field differs. */
  lemma RecordOfTarget(t: ResolvedAccount, version: nat, current: seq<ManagedAccount>)
    ensures var r := RecordFor(t, version, current);
            && r.name == t.name && r.uid == t.uid && r.shell == t.shell && r.groups == t.groups
            && r.sudoRole == t.sudoRole && r.sudoCommands == t.sudoCommands && r.fileGrants == t.fileGrants
            && RecordRule(r) == TargetRule(t)
            && r.fromVersion == (if FindAccount(current, t.name).Some? && !Differs(t, FindAccount(current, t.name).value)
                                 then FindAccount(current, t.name).value.fromVersion else version)
  {
  }

  /** The new record of a target describes the machine, exactly when nothing contests its fragment or its order. */
  lemma RecordDescribesIff(inp: Inputs, dir: string, owned: set<nat>, before: Machine, after: Machine, t: ResolvedAccount)
    requires Step(inp, dir, owned, before, after) && t in inp.targets.value
    ensures Describes(RecordFor(t, inp.version, inp.managed), after, dir) <==>
            Uncontested(inp, t.name, TargetRule(t)) && SameMeaning(inp, after.acl.tree, t)
  {
    hide Step, Asked, SamePerms, Accounts, Fragments, FragmentSays, Uncontested, AccountFragment, TargetRule, RecordRule, RecordFor;
    TargetAccount(inp, dir, owned, before, after, t);
    TargetFragment(inp, dir, owned, before, after, t);
    forall path ensures EntryOf(after.acl, AclKey(ByUid(t.uid), path)) == Asked(after.acl.tree, WrittenGrants(inp, t), path) {
      TargetEntries(inp, dir, owned, before, after, t, path);
    }
    HasEntriesOf(after.acl, t.uid, WrittenGrants(inp, t), t.fileGrants);
    RecordOfTarget(t, inp.version, inp.managed);
  }

  /** Where a name or UID still standing comes from. */
  lemma Standing(inp: Inputs, dir: string, owned: set<nat>, before: Machine, after: Machine, m: ManagedAccount)
    requires Step(inp, dir, owned, before, after) && m in inp.managed
    ensures var registry := Registry(inp);
            || (Recorded(registry, m.name) && RecordedUid(registry, m.uid))
            || (&& m.name !in Accounts(after.files)
                && (!("grp-" <= m.name) ==> AccountFragment(dir, m.name) !in Fragments(after.files, dir))
                && forall path :: AclKey(ByUid(m.uid), path) !in after.acl.entries)
  {
    var registry := Registry(inp);
    FindIsUnique(inp.managed, m);
    if Declared(inp.targets.value, m.name) {
      var i :| 0 <= i < |inp.targets.value| && inp.targets.value[i].name == m.name;
      var t := inp.targets.value[i];
      TargetKeepsUid(inp, dir, owned, before, after, t);
      TargetStands(inp, t);
    } else if m.name in RunDeferred(inp) {
      NewRegistryHolds(inp, m);
      var i :| 0 <= i < |RunDeferred(inp)| && RunDeferred(inp)[i] == m.name;
      assert FindAccount(inp.managed, RunDeferred(inp)[i]) == Some(m);
      assert m in registry;
      var j :| 0 <= j < |registry| && registry[j] == m;
    } else {
      DroppedIsGone(inp, dir, owned, before, after, m);
      if !("grp-" <= m.name) { OtherNamesUncrossed(inp, m.name); }
    }
  }

  /** Only names that begin with `grp-` are ever crossed. */
  lemma OtherNamesUncrossed(inp: Inputs, n: string)
    requires inp.groups.Some? && !("grp-" <= n)
    ensures !Crossed(inp, n) && Uncontested(inp, n, None)
  {
    forall a | a in RunGrantActions(inp) ensures n != "grp-" + a.name { assert "grp-" <= "grp-" + a.name; }
  }

  lemma TargetStands(inp: Inputs, t: ResolvedAccount)
    requires inp.targets.Some? && t in inp.targets.value
    ensures var registry := Registry(inp);
            Recorded(registry, t.name) && RecordedUid(registry, t.uid)
  {
    var registry := Registry(inp);
    var i :| 0 <= i < |inp.targets.value| && inp.targets.value[i] == t;
    assert registry[i] == RecordFor(t, inp.version, inp.managed);
  }

  lemma AccountsNotStray(inp: Inputs, dir: string, owned: set<nat>, before: Machine, after: Machine, n: string)
    requires Step(inp, dir, owned, before, after) && n in Accounts(after.files) && Accounts(after.files)[n].uid in owned
    ensures Recorded(Registry(inp), n)
  {
    if Touches(RunActions(inp), n) {
      var i :| 0 <= i < |RunActions(inp)| && RunActions(inp)[i].Name() == n;
      var a := RunActions(inp)[i];
      RunActionsDistinct(inp);
      AccountTouched(Accounts(before.files), inp.managed, RunActions(inp), a);
      ActionsAreTargets(inp, a);
      TargetStands(inp, a.account);
    } else {
      AccountUntouched(Accounts(before.files), inp.managed, RunActions(inp), n);
      var i :| 0 <= i < |inp.managed| && inp.managed[i].name == n;
      Standing(inp, dir, owned, before, after, inp.managed[i]);
    }
  }

  lemma EntriesNotStray(inp: Inputs, dir: string, owned: set<nat>, before: Machine, after: Machine, u: nat, path: string)
    requires Step(inp, dir, owned, before, after) && u in owned && AclKey(ByUid(u), path) in after.acl.entries
    ensures RecordedUid(Registry(inp), u)
  {
    if RecordedUid(inp.managed, u) {
      var i :| 0 <= i < |inp.managed| && inp.managed[i].uid == u;
      Standing(inp, dir, owned, before, after, inp.managed[i]);
    } else {
      var k := AclKey(ByUid(u), path);
      var mid := AclAfter(before.acl, Accounts(after.files), inp.managed, RunActions(inp)).value;
      UserEntryOutsideGroups(AclAfterDeletes(mid, inp.managed, RunActions(inp)), inp.groups.value, inp.managedGroups, RunGrantActions(inp), k);
      if EntryOf(mid, k).None? { DeletesOnlyRemove(mid, inp.managed, RunActions(inp), k); }
      if forall i :: 0 <= i < |RunActions(inp)| ==> !Writes(RunActions(inp)[i], Accounts(after.files), k.holder) {
        EntryUntouched(before.acl, Accounts(after.files), inp.managed, RunActions(inp), k);
      }
      var i :| 0 <= i < |RunActions(inp)| && Writes(RunActions(inp)[i], Accounts(after.files), k.holder);
      WriterIsTarget(inp, dir, owned, before, after, i, u);
      TargetStands(inp, RunActions(inp)[i].account);
    }
  }

  lemma FragmentsNotStray(inp: Inputs, dir: string, owned: set<nat>, before: Machine, after: Machine, n: string)
    requires Step(inp, dir, owned, before, after) && AccountFragment(dir, n) in Fragments(after.files, dir) && !("grp-" <= n)
    ensures Recorded(Registry(inp), n)
  {
    hide Applied, Executed, Fragments, AccountFragments, AccountFragment, Registry, Describes;
    OtherNamesUncrossed(inp, n);
    UncrossedFragment(inp, dir, before, after, n);
    if Touches(RunActions(inp), n) {
      var i :| 0 <= i < |RunActions(inp)| && RunActions(inp)[i].Name() == n;
      var a := RunActions(inp)[i];
      assert a in RunActions(inp);
      FragmentOfTouched(inp, dir, before, a);
      ActionsAreTargets(inp, a);
      TargetStands(inp, a.account);
    } else {
      FragmentOfUntouched(inp, dir, before, n);
      var i :| 0 <= i < |inp.managed| && inp.managed[i].name == n;
      Standing(inp, dir, owned, before, after, inp.managed[i]);
    }
  }

  // ----- one run -----

  /** No group's action rewrites the fragment of a recorded account, unless neither has a rule. */
  ghost predicate FragmentsApart(inp: Inputs)
    requires inp.targets.Some? && inp.groups.Some?
  {
    forall m, a :: m in Registry(inp) && a in RunGrantActions(inp) && m.name == "grp-" + a.name ==>
      RecordRule(m).None? && GroupRuleFor(a, inp.groups.value).None?
  }

  /** No target is in sync with a record whose grants, in their order, ask for other entries. */
  ghost predicate OrderKept(inp: Inputs, tree: seq<string>)
    requires inp.targets.Some?
  {
    forall t :: t in inp.targets.value ==> SameMeaning(inp, tree, t)
  }

  lemma NewRecordDescribesIff(inp: Inputs, dir: string, owned: set<nat>, before: Machine, after: Machine, m: ManagedAccount)
    requires Step(inp, dir, owned, before, after) && m in Registry(inp)
    ensures m.uid in owned
    ensures Describes(m, after, dir) ==> Uncontested(inp, m.name, RecordRule(m))
    ensures Uncontested(inp, m.name, RecordRule(m)) && OrderKept(inp, after.acl.tree) ==> Describes(m, after, dir)
  {
    hide Applied, Retained, Describes, Uncontested, SameMeaning, RecordRule, TargetRule, RecordFor;
    NewRegistryHolds(inp, m);
    if t :| t in inp.targets.value && m == RecordFor(t, inp.version, inp.managed) {
      RecordDescribesIff(inp, dir, owned, before, after, t);
      RecordOfTarget(t, inp.version, inp.managed);
    } else {
      var i :| 0 <= i < |RunDeferred(inp)| && FindAccount(inp.managed, RunDeferred(inp)[i]) == Some(m);
      assert m.name == RunDeferred(inp)[i];
      DeferredIsDescribedIff(inp, dir, owned, before, after, m);
    }
  }

  lemma FragmentsApartIff(inp: Inputs)
    requires inp.targets.Some? && inp.groups.Some?
    ensures FragmentsApart(inp) <==> forall m :: m in Registry(inp) ==> Uncontested(inp, m.name, RecordRule(m))
  {
    hide Registry, RunGrantActions, RecordRule, GroupRuleFor;
  }

  /** A record that describes the machine was written in the order it has now. */
  lemma DescribedInOrder(inp: Inputs, dir: string, owned: set<nat>, before: Machine, after: Machine, t: ResolvedAccount)
    requires Step(inp, dir, owned, before, after) && t in inp.targets.value
    requires forall m :: m in Registry(inp) ==> Describes(m, after, dir)
    ensures SameMeaning(inp, after.acl.tree, t)
  {
    hide Applied, Balanced, Retained, Describes, Uncontested, SameMeaning, RecordRule, TargetRule;
    NewRegistryHolds(inp, RecordFor(t, inp.version, inp.managed));
    RecordDescribesIff(inp, dir, owned, before, after, t);
  }

  /**
   A successful run carries the ledger over to the registry it returns, exactly when the fragments of the
   recorded accounts and of the groups it acts on are kept apart, and no order of grants has changed under
   a target the plan calls in sync.
   */
  lemma RunKeepsLedgerIff(inp: Inputs, dir: string, owned: set<nat>, before: Machine, after: Machine)
    requires Step(inp, dir, owned, before, after)
    ensures Balanced(Registry(inp), after, dir, owned) <==> FragmentsApart(inp) && OrderKept(inp, before.acl.tree)
  {
    var registry := Registry(inp);
    NewRegistryIsUnique(inp, dir, owned, before, after);
    NewRegistryStrays(inp, dir, owned, before, after);
    TreeStays(inp, dir, before, after);
    FragmentsApartIff(inp);
    forall m | m in registry
      ensures m.uid in owned
      ensures Describes(m, after, dir) ==> Uncontested(inp, m.name, RecordRule(m))
      ensures Uncontested(inp, m.name, RecordRule(m)) && OrderKept(inp, after.acl.tree) ==> Describes(m, after, dir)
    {
      NewRecordDescribesIff(inp, dir, owned, before, after, m);
    }
    hide Step, Registry, Describes, FragmentsApart, Uncontested, SameMeaning, RecordRule, NothingStray;
    if forall m :: m in registry ==> Describes(m, after, dir) {
      forall t | t in inp.targets.value ensures SameMeaning(inp, after.acl.tree, t) {
        DescribedInOrder(inp, dir, owned, before, after, t);
      }
    }
  }

  lemma NewRegistryStrays(inp: Inputs, dir: string, owned: set<nat>, before: Machine, after: Machine)
    requires Step(inp, dir, owned, before, after)
    ensures NothingStray(Registry(inp), after, dir, owned)
  {
    var registry := Registry(inp);
    forall n | n in Accounts(after.files) && Accounts(after.files)[n].uid in owned ensures Recorded(registry, n) {
      AccountsNotStray(inp, dir, owned, before, after, n);
    }
    forall u, path | u in owned && AclKey(ByUid(u), path) in after.acl.entries ensures RecordedUid(registry, u) {
      EntriesNotStray(inp, dir, owned, before, after, u, path);
    }
    forall n | AccountFragment(dir, n) in Fragments(after.files, dir) && !("grp-" <= n) ensures Recorded(registry, n) {
      FragmentsNotStray(inp, dir, owned, before, after, n);
    }
  }
}
