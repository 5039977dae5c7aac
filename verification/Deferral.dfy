/**
 What a run promises people who are logged in, and people who want to log in:
 deferral for live sessions, its transparency once the session ends, and the
 anti-lockout gate read over a whole run.
 */
module Deferral {
  import opened Outcomes
  import opened Records
  import opened Plan
  import opened Lockout
  import opened DiskModel
  import opened ProvisionerModel
  import opened FileAccess
  import opened ApplyPlan
  import opened DeclarationModel
  import opened Transaction
  import opened Ledger

  /**
   A dropped account with a live session, by name or by UID: no action names
   it, its account and entries stand as recorded, and so does its fragment
   unless a group contests it; its record is carried over unchanged, and none
   of its groups is deleted.
   */
  lemma LiveSessionIsSafe(inp: Inputs, dir: string, owned: set<nat>, before: Machine, after: Machine, m: ManagedAccount)
    requires Step(inp, dir, owned, before, after)
    requires m in inp.managed && !Declared(inp.targets.value, m.name)
    requires m.name in LiveNow(inp).names || m.uid in LiveNow(inp).uids
    ensures !Touches(RunActions(inp), m.name)
    ensures m.name in Accounts(after.files) && Accounts(after.files)[m.name] == PwEntry(m.uid, m.shell)
    ensures HasEntries(after.acl, m.uid, m.fileGrants)
    ensures Describes(m, after, dir) <==> Uncontested(inp, m.name, RecordRule(m))
    ensures m in Registry(inp)
    ensures forall g :: g == m.name || g in m.groups ==> DeleteGroup(g) !in RunGroupActions(inp)
  {
    FindIsUnique(inp.managed, m);
    assert Recorded(inp.managed, m.name);
    DiffContains(inp.targets.value, inp.managed, Delete(m.name));
    DeferredContains(PlannedActions(inp), inp.managed, LiveNow(inp), m.name);
    DeferredAccount(inp, dir, owned, before, after, m.name);
    DeferredIsDescribedIff(inp, dir, owned, before, after, m);
    var i :| 0 <= i < |RunDeferred(inp)| && RunDeferred(inp)[i] == m.name;
    assert FindAccount(inp.managed, RunDeferred(inp)[i]) == Some(m);
    NewRegistryHolds(inp, m);
    forall g | g == m.name || g in m.groups ensures DeleteGroup(g) !in RunGroupActions(inp) {
      assert HeldByDeferred(RunDeferred(inp), inp.managed, g);
      var required := RequiredSpec(inp.targets.value, inp.groups.value);
      KeptGroupActions(GroupCreates(required, inp.facts) + GroupDeletes(required, inp.managedGroups), RunDeferred(inp), inp.managed, DeleteGroup(g));
    }
  }

  /** Exactly the live, dropped accounts are deferred. */
  lemma DeferredExactly(inp: Inputs, n: string)
    requires inp.targets.Some?
    ensures n in RunDeferred(inp) <==>
            && !Declared(inp.targets.value, n) && FindAccount(inp.managed, n).Some?
            && (n in LiveNow(inp).names || FindAccount(inp.managed, n).value.uid in LiveNow(inp).uids)
  {
    DeferredContains(PlannedActions(inp), inp.managed, LiveNow(inp), n);
    DiffContains(inp.targets.value, inp.managed, Delete(n));
    var found := FindAccount(inp.managed, n);
    if found.Some? {
      var i :| 0 <= i < |inp.managed| && inp.managed[i] == found.value;
    }
  }

  lemma NothingDeferred(inp: Inputs)
    requires inp.targets.Some? && LiveNow(inp) == NO_SESSIONS
    ensures RunDeferred(inp) == []
  {
    if RunDeferred(inp) != [] {
      DeferredExactly(inp, RunDeferred(inp)[0]);
    }
  }

  /** The record of a target in the registry a run reports. */
  lemma TargetRecordFound(inp: Inputs, t: ResolvedAccount)
    requires inp.targets.Some? && UniqueTargets(inp.targets.value) && t in inp.targets.value
    ensures FindAccount(Registry(inp), t.name) == Some(RecordFor(t, inp.version, inp.managed))
  {
    var i :| 0 <= i < |inp.targets.value| && inp.targets.value[i] == t;
    FindFirst(Registry(inp), i);
  }

  lemma {:induction false} FindFirst(registry: seq<ManagedAccount>, i: nat)
    requires i < |registry| && forall j :: 0 <= j < i ==> registry[j].name != registry[i].name
    ensures FindAccount(registry, registry[i].name) == Some(registry[i])
  {
    if i > 0 {
      FindFirst(registry[1..], i - 1);
    }
  }

  /** The same declaration applied again once nobody is logged in. */
  function Rerun(inp: Inputs): Inputs
    requires inp.targets.Some?
  {
    inp.(managed := Registry(inp), live := Some(NO_SESSIONS))
  }

  /**
   Deferral is transparent: the run after the session ends reports the account
   registry the first run would have reported had nobody been logged in.
   */
  lemma DeferralIsTransparent(inp: Inputs)
    requires inp.targets.Some? && UniqueTargets(inp.targets.value)
    ensures Registry(Rerun(inp)) == Registry(inp.(live := Some(NO_SESSIONS)))
  {
    NothingDeferred(Rerun(inp));
    NothingDeferred(inp.(live := Some(NO_SESSIONS)));
    forall i | 0 <= i < |inp.targets.value|
      ensures RecordFor(inp.targets.value[i], inp.version, Registry(inp)) == RecordFor(inp.targets.value[i], inp.version, inp.managed)
    {
      TargetRecordFound(inp, inp.targets.value[i]);
    }
  }

  /** The registry names the targets and the deferred accounts, and no others. */
  lemma RegistryNames(inp: Inputs, n: string)
    requires inp.targets.Some?
    ensures Recorded(Registry(inp), n) <==> Declared(inp.targets.value, n) || n in RunDeferred(inp)
  {
    var registry := Registry(inp);
    if Recorded(registry, n) {
      var i :| 0 <= i < |registry| && registry[i].name == n;
      NewRegistryHolds(inp, registry[i]);
    }
    if Declared(inp.targets.value, n) {
      var i :| 0 <= i < |inp.targets.value| && inp.targets.value[i].name == n;
      TargetStands(inp, inp.targets.value[i]);
    }
    if n in RunDeferred(inp) {
      DeferredIsRegistered(inp, n);
    }
  }

  lemma DeferredIsRegistered(inp: Inputs, n: string)
    requires inp.targets.Some? && n in RunDeferred(inp)
    ensures Recorded(Registry(inp), n)
  {
    DeferredExactly(inp, n);
    var m := FindAccount(inp.managed, n).value;
    NewRegistryHolds(inp, m);
    var i :| 0 <= i < |RunDeferred(inp)| && RunDeferred(inp)[i] == n;
    assert FindAccount(inp.managed, RunDeferred(inp)[i]) == Some(m);
    var j :| 0 <= j < |Registry(inp)| && Registry(inp)[j] == m;
  }

  /** And it does nothing but finish the deferred deletions. */
  lemma RerunOnlyDeletesDeferred(inp: Inputs, a: Action)
    requires inp.targets.Some? && UniqueTargets(inp.targets.value)
    ensures a in RunActions(Rerun(inp)) <==> a.Delete? && a.name in RunDeferred(inp)
  {
    hide PlannedActions, Registry;
    RunActionsExactly(Rerun(inp), a);
    if a.Delete? {
      DeferredExactly(inp, a.name);
      RegistryNames(inp, a.name);
    } else if a.account in inp.targets.value {
      TargetRecordFound(inp, a.account);
    }
  }

  // ----- lockout -----

  ghost predicate SomeLogin(registry: seq<ManagedAccount>) {
    exists i :: 0 <= i < |registry| && LoginCapable(registry[i].shell)
  }

  lemma {:induction false} UntouchedShellsContain(managed: seq<ManagedAccount>, actions: seq<Action>, s: string)
    ensures s in UntouchedShells(managed, actions) <==>
            exists i :: 0 <= i < |managed| && managed[i].shell == s && !Touches(actions, managed[i].name)
  {
    if managed != [] {
      var n := |managed| - 1;
      UntouchedShellsContain(managed[..n], actions, s);
      assert forall i :: 0 <= i < n ==> managed[..n][i] == managed[i];
      if s in UntouchedShells(managed, actions) && !(managed[n].shell == s && !Touches(actions, managed[n].name)) {
        var i :| 0 <= i < n && managed[..n][i].shell == s && !Touches(actions, managed[..n][i].name);
        assert managed[i].shell == s;
      }
    }
  }

  /** A recorded account the plan leaves alone is still in the registry, with its shell. */
  lemma UntouchedIsKept(inp: Inputs, m: ManagedAccount)
    requires inp.targets.Some? && UniqueNames(inp.managed) && m in inp.managed && !Touches(RunActions(inp), m.name)
    ensures exists r :: r in Registry(inp) && r.name == m.name && r.shell == m.shell
  {
    FindIsUnique(inp.managed, m);
    if Declared(inp.targets.value, m.name) {
      var i :| 0 <= i < |inp.targets.value| && inp.targets.value[i].name == m.name;
      var t := inp.targets.value[i];
      RunActionsExactly(inp, Update(t));
      assert InSync(t, m);
      assert Registry(inp)[i] == RecordFor(t, inp.version, inp.managed);
      assert Registry(inp)[i] in Registry(inp);
    } else {
      assert Recorded(inp.managed, m.name);
      DiffContains(inp.targets.value, inp.managed, Delete(m.name));
      RunActionsExactly(inp, Delete(m.name));
      assert MustWait(Delete(m.name), inp.managed, LiveNow(inp));
      DeferredContains(PlannedActions(inp), inp.managed, LiveNow(inp), m.name);
      NewRegistryHolds(inp, m);
      var i :| 0 <= i < |RunDeferred(inp)| && RunDeferred(inp)[i] == m.name;
      assert FindAccount(inp.managed, RunDeferred(inp)[i]) == Some(m);
      assert m in Registry(inp);
    }
  }

  lemma SurvivorsAreRegistered(inp: Inputs)
    requires inp.targets.Some? && UniqueTargets(inp.targets.value) && UniqueNames(inp.managed)
    requires Surviving(RunActions(inp), UntouchedShells(inp.managed, RunActions(inp))) > 0
    ensures SomeLogin(Registry(inp))
  {
    ActionsCounted(RunActions(inp));
    ShellsCounted(UntouchedShells(inp.managed, RunActions(inp)));
    if a :| a in RunActions(inp) && LeavesLogin(a) {
      ActionsAreTargets(inp, a);
      var i :| 0 <= i < |inp.targets.value| && inp.targets.value[i] == a.account;
      assert Registry(inp)[i].shell == a.account.shell;
    } else {
      var s :| s in UntouchedShells(inp.managed, RunActions(inp)) && LoginCapable(s);
      UntouchedShellsContain(inp.managed, RunActions(inp), s);
      var i :| 0 <= i < |inp.managed| && inp.managed[i].shell == s && !Touches(RunActions(inp), inp.managed[i].name);
      UntouchedIsKept(inp, inp.managed[i]);
      var r :| r in Registry(inp) && r.name == inp.managed[i].name && r.shell == s;
      var j :| 0 <= j < |Registry(inp)| && Registry(inp)[j] == r;
    }
  }

  lemma RegisteredSurvive(inp: Inputs)
    requires inp.targets.Some? && UniqueTargets(inp.targets.value) && UniqueNames(inp.managed) && SomeLogin(Registry(inp))
    ensures Surviving(RunActions(inp), UntouchedShells(inp.managed, RunActions(inp))) > 0
  {
    var i :| 0 <= i < |Registry(inp)| && LoginCapable(Registry(inp)[i].shell);
    var r := Registry(inp)[i];
    assert r in Registry(inp);
    NewRegistryHolds(inp, r);
    if t :| t in inp.targets.value && r == RecordFor(t, inp.version, inp.managed) {
      TargetSurvives(inp, t);
    } else {
      var j :| 0 <= j < |RunDeferred(inp)| && FindAccount(inp.managed, RunDeferred(inp)[j]) == Some(r);
      DeferredExactly(inp, r.name);
      NotTouched(inp, r.name);
      UntouchedCounts(inp, r);
    }
  }

  lemma TargetSurvives(inp: Inputs, t: ResolvedAccount)
    requires inp.targets.Some? && UniqueTargets(inp.targets.value) && t in inp.targets.value && LoginCapable(t.shell)
    ensures Surviving(RunActions(inp), UntouchedShells(inp.managed, RunActions(inp))) > 0
  {
    ActionsCounted(RunActions(inp));
    var found := FindAccount(inp.managed, t.name);
    if found.None? {
      RunActionsExactly(inp, Create(t));
      assert LeavesLogin(Create(t));
    } else if !InSync(t, found.value) {
      RunActionsExactly(inp, Update(t));
      assert LeavesLogin(Update(t));
    } else {
      NotTouched(inp, t.name);
      UntouchedCounts(inp, found.value);
    }
  }

  lemma UntouchedCounts(inp: Inputs, m: ManagedAccount)
    requires inp.targets.Some? && m in inp.managed && !Touches(RunActions(inp), m.name)
    ensures LoginCapable(m.shell) ==> Surviving(RunActions(inp), UntouchedShells(inp.managed, RunActions(inp))) > 0
  {
    UntouchedShellsContain(inp.managed, RunActions(inp), m.shell);
    var i :| 0 <= i < |inp.managed| && inp.managed[i] == m;
    ShellsCounted(UntouchedShells(inp.managed, RunActions(inp)));
  }

  /** A shell somebody can log in with. */
  predicate OpensASession(shell: string) {
    && shell != "" && shell != "/usr/sbin/nologin" && shell != "/sbin/nologin"
    && shell != "/bin/false" && shell != "/usr/bin/false"
  }

  /**
   The gate judges the registry it is about to allow: a plan passes exactly when it touches no account, a
   rescue channel is there, the risk was acknowledged, or the registry the run reports has an account whose
   shell opens a session.
   */
  lemma GateIsExact(inp: Inputs)
    requires inp.targets.Some? && UniqueTargets(inp.targets.value) && UniqueNames(inp.managed)
    ensures Gate(RunActions(inp), inp.lockout, UntouchedShells(inp.managed, RunActions(inp))) <==>
            || RunActions(inp) == [] || inp.lockout.rescuePresent || inp.lockout.riskAcknowledged
            || exists i :: 0 <= i < |Registry(inp)| && OpensASession(Registry(inp)[i].shell)
  {
    hide Registry, RunActions, UntouchedShells, Surviving;
    forall shell ensures LoginCapable(shell) <==> OpensASession(shell) { }
    if SomeLogin(Registry(inp)) {
      RegisteredSurvive(inp);
    } else if Surviving(RunActions(inp), UntouchedShells(inp.managed, RunActions(inp))) > 0 {
      SurvivorsAreRegistered(inp);
    }
  }

  /** A path the ACL backend can enforce: no wildcard, and meant recursively or written with a final slash. */
  predicate Enforces(g: Grant) {
    && (forall c :: c in g.path ==> c != '*' && c != '?' && c != '[')
    && (g.recursive || (g.path != "" && g.path[|g.path| - 1] == '/'))
  }

  /** What a run accepts, in terms of its inputs alone. */
  ghost predicate Acceptable(inp: Inputs) {
    && inp.trusted && inp.targets.Some? && inp.groups.Some?
    && (forall t, g :: t in inp.targets.value && g in t.fileGrants ==> Enforces(g))
    && (forall d, g :: d in inp.groups.value && g in d.fileGrants ==> Enforces(g))
    && (forall n :: Joined(inp.targets.value, n) || DeclaredGroup(inp.groups.value, n) ==> ValidGroupName(n))
    && Consistent(RequiredSpec(inp.targets.value, inp.groups.value), inp.managedGroups, inp.facts)
    && (inp.live.None? ==> forall m :: m in inp.managed ==> Declared(inp.targets.value, m.name))
    && (|| RunActions(inp) == [] || inp.lockout.rescuePresent || inp.lockout.riskAcknowledged
        || exists i :: 0 <= i < |Registry(inp)| && OpensASession(Registry(inp)[i].shell))
  }

  lemma RoutableIff(grants: seq<Grant>)
    ensures Routable(grants, ACL_CAPABILITIES) <==> forall g :: g in grants ==> Enforces(g)
  {
    forall g: Grant ensures ShapeSupported(g.Shape(), ACL_CAPABILITIES) <==> Enforces(g) { }
    if Routable(grants, ACL_CAPABILITIES) {
      forall g | g in grants ensures Enforces(g) { var i :| 0 <= i < |grants| && grants[i] == g; }
    }
  }

  lemma RequiredNamesValid(targets: seq<ResolvedAccount>, groups: seq<ResolvedGroup>)
    ensures (forall q :: q in RequiredSpec(targets, groups) ==> ValidGroupName(q.name)) <==>
            forall n :: Joined(targets, n) || DeclaredGroup(groups, n) ==> ValidGroupName(n)
  {
    hide ValidGroupName, RequiredSpec, Joined, DeclaredGroup;
    var required := RequiredSpec(targets, groups);
    forall n ensures Required(required, n) <==> Joined(targets, n) || DeclaredGroup(groups, n) { RequiredExactly(targets, groups, n); }
    if forall q :: q in required ==> ValidGroupName(q.name) {
      forall n | Required(required, n) ensures ValidGroupName(n) {
        var i :| 0 <= i < |required| && required[i].name == n;
        assert required[i] in required;
      }
    }
    if forall n :: Required(required, n) ==> ValidGroupName(n) {
      forall q | q in required ensures ValidGroupName(q.name) {
        var i :| 0 <= i < |required| && required[i] == q;
        assert Required(required, q.name);
      }
    }
  }

  lemma DestructiveIff(inp: Inputs)
    requires inp.targets.Some?
    ensures !Destructive(PlannedActions(inp)) <==> forall m :: m in inp.managed ==> Declared(inp.targets.value, m.name)
  {
    hide Declared;
    var actions := PlannedActions(inp);
    if Destructive(actions) {
      var i :| 0 <= i < |actions| && actions[i].Delete?;
      DiffContains(inp.targets.value, inp.managed, actions[i]);
      var j :| 0 <= j < |inp.managed| && inp.managed[j].name == actions[i].name;
      assert inp.managed[j] in inp.managed;
    }
    if m :| m in inp.managed && !Declared(inp.targets.value, m.name) {
      var j :| 0 <= j < |inp.managed| && inp.managed[j] == m;
      DiffContains(inp.targets.value, inp.managed, Delete(m.name));
      var i :| 0 <= i < |actions| && actions[i] == Delete(m.name);
    }
  }

  /** The refusals before the first mutation, exactly. */
  lemma AdmissibleExactly(inp: Inputs)
    requires inp.targets.Some? ==> UniqueTargets(inp.targets.value)
    requires UniqueNames(inp.managed)
    ensures Admissible(inp) <==> Acceptable(inp)
  {
    hide Gate, Consistent, RequiredSpec, Routable, Enforces, Registry, RunActions, PlannedActions, OpensASession, ValidGroupName, Destructive;
    if inp.targets.Some? && inp.groups.Some? {
      GateIsExact(inp);
      DestructiveIff(inp);
      RequiredNamesValid(inp.targets.value, inp.groups.value);
      forall t | t in inp.targets.value ensures Routable(t.fileGrants, ACL_CAPABILITIES) <==> forall g :: g in t.fileGrants ==> Enforces(g) {
        RoutableIff(t.fileGrants);
      }
      forall d | d in inp.groups.value ensures Routable(d.fileGrants, ACL_CAPABILITIES) <==> forall g :: g in d.fileGrants ==> Enforces(g) {
        RoutableIff(d.fileGrants);
      }
    }
  }

  /** Deferring deletions never turns an accepted plan into a refused one. */
  lemma DeferringNeverLocksOut(inp: Inputs)
    requires inp.targets.Some?
    requires Gate(PlannedActions(inp), inp.lockout, UntouchedShells(inp.managed, PlannedActions(inp)))
    ensures Gate(RunActions(inp), inp.lockout, UntouchedShells(inp.managed, RunActions(inp)))
  {
    var planned, executed := PlannedActions(inp), RunActions(inp);
    ActionsCounted(planned);
    ActionsCounted(executed);
    ShellsCounted(UntouchedShells(inp.managed, planned));
    ShellsCounted(UntouchedShells(inp.managed, executed));
    forall i | 0 <= i < |executed| ensures executed[i] in planned {
      ExecutedContains(planned, inp.managed, LiveNow(inp), executed[i]);
    }
    if a :| a in planned && LeavesLogin(a) {
      ExecutedContains(planned, inp.managed, LiveNow(inp), a);
    } else if s :| s in UntouchedShells(inp.managed, planned) && LoginCapable(s) {
      UntouchedShellsContain(inp.managed, planned, s);
      UntouchedShellsContain(inp.managed, executed, s);
      var i :| 0 <= i < |inp.managed| && inp.managed[i].shell == s && !Touches(planned, inp.managed[i].name);
      assert !Touches(executed, inp.managed[i].name);
    }
  }
}
