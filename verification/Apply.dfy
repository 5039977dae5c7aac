/**
 The decisions of `census apply` (src/apply.rs) that change nothing by
 themselves: which deletions are deferred for a live session, which paths a run
 will touch, and what the registry says afterwards.
 */
module ApplyPlan {
  import opened Outcomes
  import opened Records
  import opened Plan
  import opened Lockout
  import opened DiskModel
  import opened ProvisionerModel
  import opened FileAccess

  // ----- live sessions -----

  datatype LiveSessions = LiveSessions(names: set<string>, uids: set<nat>)

  const NO_SESSIONS := LiveSessions({}, {})

  predicate IsLive(live: LiveSessions, name: string, uid: nat) {
    name in live.names || uid in live.uids
  }

  /** A deletion that must wait: the account is recorded and has a session. */
  predicate MustWait(a: Action, managed: seq<ManagedAccount>, live: LiveSessions) {
    && a.Delete?
    && FindAccount(managed, a.name).Some?
    && IsLive(live, a.name, FindAccount(managed, a.name).value.uid)
  }

  function Executed(actions: seq<Action>, managed: seq<ManagedAccount>, live: LiveSessions): seq<Action> {
    if actions == [] then []
    else
      var a := actions[|actions| - 1];
      Executed(actions[..|actions| - 1], managed, live) + if MustWait(a, managed, live) then [] else [a]
  }

  function Deferred(actions: seq<Action>, managed: seq<ManagedAccount>, live: LiveSessions): seq<string> {
    if actions == [] then []
    else
      var a := actions[|actions| - 1];
      Deferred(actions[..|actions| - 1], managed, live) + if MustWait(a, managed, live) then [a.name] else []
  }

  method ReconcileLiveSessions(actions: seq<Action>, managed: seq<ManagedAccount>, live: LiveSessions)
    returns (kept: seq<Action>, deferred: seq<string>)
    ensures kept == Executed(actions, managed, live)
    ensures deferred == Deferred(actions, managed, live)
  {
    kept, deferred := [], [];
    for i := 0 to |actions|
      invariant kept == Executed(actions[..i], managed, live)
      invariant deferred == Deferred(actions[..i], managed, live)
    {
      assert actions[..i + 1][..i] == actions[..i];
      var a := actions[i];
      if a.Delete? {
        var record := FindAccount(managed, a.name);
        if record.Some? && IsLive(live, a.name, record.value.uid) {
          deferred := deferred + [a.name];
        } else {
          kept := kept + [a];
        }
      } else {
        kept := kept + [a];
      }
    }
    assert actions[..|actions|] == actions;
  }

  lemma {:induction false} ExecutedContains(actions: seq<Action>, managed: seq<ManagedAccount>, live: LiveSessions, a: Action)
    ensures a in Executed(actions, managed, live) <==>
            && a in actions
            && !(&& a.Delete? && FindAccount(managed, a.name).Some?
                 && (a.name in live.names || FindAccount(managed, a.name).value.uid in live.uids))
  {
    if actions != [] {
      var n := |actions| - 1;
      ExecutedContains(actions[..n], managed, live, a);
      assert actions == actions[..n] + [actions[n]];
    }
  }

  lemma {:induction false} DeferredContains(actions: seq<Action>, managed: seq<ManagedAccount>, live: LiveSessions, name: string)
    ensures name in Deferred(actions, managed, live) <==>
            && Delete(name) in actions && FindAccount(managed, name).Some?
            && (name in live.names || FindAccount(managed, name).value.uid in live.uids)
  {
    if actions != [] {
      var n := |actions| - 1;
      DeferredContains(actions[..n], managed, live, name);
      assert actions == actions[..n] + [actions[n]];
    }
  }

  lemma {:induction false} ExecutedIsDistinct(actions: seq<Action>, managed: seq<ManagedAccount>, live: LiveSessions)
    requires DistinctNames(actions)
    ensures DistinctNames(Executed(actions, managed, live))
  {
    if actions != [] {
      var n := |actions| - 1;
      ExecutedIsDistinct(actions[..n], managed, live);
      var head := Executed(actions[..n], managed, live);
      forall k | 0 <= k < |head| ensures head[k].Name() != actions[n].Name() {
        ExecutedContains(actions[..n], managed, live, head[k]);
        var i :| 0 <= i < n && actions[..n][i] == head[k];
      }
    }
  }

  /** A deferred account's own groups: its recorded ones and the one named after it. */
  predicate HeldByDeferred(deferred: seq<string>, managed: seq<ManagedAccount>, group: string) {
    exists i :: 0 <= i < |deferred| &&
      (deferred[i] == group ||
       (FindAccount(managed, deferred[i]).Some? && group in FindAccount(managed, deferred[i]).value.groups))
  }

  function KeepGroupActions(actions: seq<GroupAction>, deferred: seq<string>, managed: seq<ManagedAccount>): seq<GroupAction> {
    if actions == [] then []
    else
      var a := actions[|actions| - 1];
      KeepGroupActions(actions[..|actions| - 1], deferred, managed) +
      if a.DeleteGroup? && HeldByDeferred(deferred, managed, a.name) then [] else [a]
  }

  lemma {:induction false} KeptGroupActions(actions: seq<GroupAction>, deferred: seq<string>, managed: seq<ManagedAccount>, a: GroupAction)
    ensures a in KeepGroupActions(actions, deferred, managed) <==>
            a in actions && !(a.DeleteGroup? && HeldByDeferred(deferred, managed, a.name))
  {
    if actions != [] {
      var n := |actions| - 1;
      KeptGroupActions(actions[..n], deferred, managed, a);
      assert actions == actions[..n] + [actions[n]];
    }
  }

  function GroupsOf(deferred: string, managed: seq<ManagedAccount>): seq<string> {
    [deferred] + (if FindAccount(managed, deferred).Some? then FindAccount(managed, deferred).value.groups else [])
  }

  function FoldDeferred(required: seq<Requirement>, deferred: seq<string>, managed: seq<ManagedAccount>): seq<Requirement> {
    if deferred == [] then required
    else RequireAll(FoldDeferred(required, deferred[..|deferred| - 1], managed), GroupsOf(deferred[|deferred| - 1], managed))
  }

  lemma {:induction false} FoldDeferredRequires(required: seq<Requirement>, deferred: seq<string>, managed: seq<ManagedAccount>, name: string)
    ensures Required(FoldDeferred(required, deferred, managed), name) <==>
            Required(required, name) || HeldByDeferred(deferred, managed, name)
  {
    if deferred != [] {
      var n := |deferred| - 1;
      var last := deferred[n];
      FoldDeferredRequires(required, deferred[..n], managed, name);
      RequireAllRequires(FoldDeferred(required, deferred[..n], managed), GroupsOf(last, managed), name);
      assert forall i :: 0 <= i < n ==> deferred[..n][i] == deferred[i];
      if HeldByDeferred(deferred, managed, name) && name !in GroupsOf(last, managed) {
        var i :| 0 <= i < |deferred| &&
          (deferred[i] == name ||
           (FindAccount(managed, deferred[i]).Some? && name in FindAccount(managed, deferred[i]).value.groups));
        assert i < n && deferred[..n][i] == deferred[i];
      }
    }
  }

  // ----- grants to revoke -----

  predicate Mentions(grants: seq<Grant>, path: string) {
    exists i :: 0 <= i < |grants| && grants[i].path == path
  }

  /** The recorded grants whose path is not kept. */
  function Dropped(recorded: seq<Grant>, keep: seq<Grant>): seq<Grant> {
    if recorded == [] then []
    else
      var g := recorded[|recorded| - 1];
      Dropped(recorded[..|recorded| - 1], keep) + if Mentions(keep, g.path) then [] else [g]
  }

  function RemovedGrants(name: string, keep: seq<Grant>, managed: seq<ManagedAccount>): seq<Grant> {
    match FindAccount(managed, name)
    case None => []
    case Some(record) => Dropped(record.fileGrants, keep)
  }

  function RemovedGroupGrants(name: string, keep: seq<Grant>, managed: seq<ManagedGroup>): seq<Grant> {
    match FindGroup(managed, name)
    case None => []
    case Some(record) => Dropped(record.fileGrants, keep)
  }

  lemma {:induction false} DroppedContains(recorded: seq<Grant>, keep: seq<Grant>, g: Grant)
    ensures g in Dropped(recorded, keep) <==> g in recorded && !Mentions(keep, g.path)
  {
    if recorded != [] {
      var n := |recorded| - 1;
      DroppedContains(recorded[..n], keep, g);
      assert recorded == recorded[..n] + [recorded[n]];
    }
  }

  // ----- what a run will touch -----

  function GrantPathsOf(a: Action, managed: seq<ManagedAccount>): set<string> {
    match a
    case Create(t) => PathsOf(RemovedGrants(t.name, t.fileGrants, managed))
    case Update(t) => PathsOf(RemovedGrants(t.name, t.fileGrants, managed))
    case Delete(n) => PathsOf(RemovedGrants(n, [], managed))
  }

  /** Every target's grant paths, plus the paths revoked by the plan. */
  method FileAccessTouchedPaths(actions: seq<Action>, targets: seq<ResolvedAccount>, managed: seq<ManagedAccount>)
    returns (paths: set<string>)
    ensures forall t :: t in targets ==> PathsOf(t.fileGrants) <= paths
    ensures forall a :: a in actions ==> GrantPathsOf(a, managed) <= paths
  {
    paths := {};
    for i := 0 to |targets|
      invariant forall k :: 0 <= k < i ==> PathsOf(targets[k].fileGrants) <= paths
    {
      paths := paths + PathsOf(targets[i].fileGrants);
    }
    for i := 0 to |actions|
      invariant forall t :: t in targets ==> PathsOf(t.fileGrants) <= paths
      invariant forall k :: 0 <= k < i ==> GrantPathsOf(actions[k], managed) <= paths
    {
      match actions[i] {
        case Create(t) => paths := paths + PathsOf(RemovedGrants(t.name, t.fileGrants, managed));
        case Update(t) => paths := paths + PathsOf(RemovedGrants(t.name, t.fileGrants, managed));
        case Delete(n) => paths := paths + PathsOf(RemovedGrants(n, [], managed));
      }
    }
  }

  function KeepOf(groups: seq<ResolvedGroup>, name: string): seq<Grant> {
    match FindResolvedGroup(groups, name)
    case None => []
    case Some(g) => g.fileGrants
  }

  function GroupGrantPathsOf(a: GroupAction, groups: seq<ResolvedGroup>, managed: seq<ManagedGroup>): set<string> {
    if a.Release? || a.DeleteGroup? then PathsOf(RemovedGroupGrants(a.name, [], managed))
    else PathsOf(KeepOf(groups, a.name)) + PathsOf(RemovedGroupGrants(a.name, KeepOf(groups, a.name), managed))
  }

  method GroupFileAccessTouchedPaths(actions: seq<GroupAction>, groups: seq<ResolvedGroup>, managed: seq<ManagedGroup>)
    returns (paths: set<string>)
    ensures forall a :: a in actions ==> GroupGrantPathsOf(a, groups, managed) <= paths
  {
    paths := {};
    for i := 0 to |actions|
      invariant forall k :: 0 <= k < i ==> GroupGrantPathsOf(actions[k], groups, managed) <= paths
    {
      var a := actions[i];
      if a.Release? || a.DeleteGroup? {
        paths := paths + PathsOf(RemovedGroupGrants(a.name, [], managed));
      } else {
        var found := FindResolvedGroup(groups, a.name);
        if found.Some? {
          paths := paths + PathsOf(found.value.fileGrants);
        }
        paths := paths + PathsOf(RemovedGroupGrants(a.name, KeepOf(groups, a.name), managed));
      }
    }
  }

  // ----- the registry afterwards -----

  function Record(t: ResolvedAccount, version: nat): ManagedAccount {
    ManagedAccount(t.name, t.uid, t.shell, t.groups, t.sudoRole, t.sudoCommands, t.fileGrants, version)
  }

  /** An unchanged account keeps the version it was recorded at. */
  function RecordFor(t: ResolvedAccount, version: nat, current: seq<ManagedAccount>): ManagedAccount {
    match FindAccount(current, t.name)
    case Some(e) => Record(t, if InSync(t, e) then e.fromVersion else version)
    case None => Record(t, version)
  }

  function RecordsOf(targets: seq<ResolvedAccount>, version: nat, current: seq<ManagedAccount>): (r: seq<ManagedAccount>)
    ensures |r| == |targets|
    ensures forall i :: 0 <= i < |r| ==> r[i] == RecordFor(targets[i], version, current)
  {
    seq(|targets|, i requires 0 <= i < |targets| => RecordFor(targets[i], version, current))
  }

  function Retained(deferred: seq<string>, current: seq<ManagedAccount>): seq<ManagedAccount> {
    if deferred == [] then []
    else
      var found := FindAccount(current, deferred[|deferred| - 1]);
      Retained(deferred[..|deferred| - 1], current) + if found.Some? then [found.value] else []
  }

  function ManagedSetSpec(targets: seq<ResolvedAccount>, version: nat, current: seq<ManagedAccount>, deferred: seq<string>): seq<ManagedAccount> {
    RecordsOf(targets, version, current) + Retained(deferred, current)
  }

  method BuildManagedSet(targets: seq<ResolvedAccount>, version: nat, current: seq<ManagedAccount>, deferred: seq<string>)
    returns (out: seq<ManagedAccount>)
    ensures out == ManagedSetSpec(targets, version, current, deferred)
  {
    out := RecordsOf(targets, version, current);
    for i := 0 to |deferred|
      invariant out == RecordsOf(targets, version, current) + Retained(deferred[..i], current)
    {
      assert deferred[..i + 1][..i] == deferred[..i];
      var existing := FindAccount(current, deferred[i]);
      if existing.Some? {
        out := out + [existing.value];
      }
    }
    assert deferred[..|deferred|] == deferred;
  }

  lemma {:induction false} RetainedContains(deferred: seq<string>, current: seq<ManagedAccount>, m: ManagedAccount)
    ensures m in Retained(deferred, current) <==>
            exists i :: 0 <= i < |deferred| && FindAccount(current, deferred[i]) == Some(m)
  {
    if deferred != [] {
      var n := |deferred| - 1;
      RetainedContains(deferred[..n], current, m);
      assert forall i :: 0 <= i < n ==> deferred[..n][i] == deferred[i];
      if m in Retained(deferred, current) && FindAccount(current, deferred[n]) != Some(m) {
        var i :| 0 <= i < n && FindAccount(current, deferred[..n][i]) == Some(m);
        assert FindAccount(current, deferred[i]) == Some(m);
      }
    }
  }

  // ----- the group registry afterwards -----

  /** A group Census created in this run and the GID it was given, if known. */
  datatype CreatedGroup = CreatedGroup(name: string, gid: Option<nat>)

  /** Insert or replace by name, as a map keyed by name does. */
  function Put(records: seq<ManagedGroup>, g: ManagedGroup): seq<ManagedGroup> {
    if records == [] then [g]
    else if records[0].name == g.name then [g] + records[1..]
    else [records[0]] + Put(records[1..], g)
  }

  function Carried(prior: seq<ManagedGroup>, required: seq<Requirement>): seq<ManagedGroup> {
    if prior == [] then []
    else
      var g := prior[|prior| - 1];
      var rest := Carried(prior[..|prior| - 1], required);
      if Required(required, g.name) then Put(rest, g) else rest
  }

  function GidOf(c: CreatedGroup, facts: GroupFacts): Option<nat> {
    if c.gid.Some? then c.gid else if c.name in facts.gids then Some(facts.gids[c.name]) else None
  }

  function NewGroup(c: CreatedGroup, version: nat, facts: GroupFacts): ManagedGroup {
    ManagedGroup(c.name, GidOf(c, facts), Created, [], [], [], None, version)
  }

  function WithCreated(records: seq<ManagedGroup>, created: seq<CreatedGroup>, version: nat, facts: GroupFacts): seq<ManagedGroup> {
    if created == [] then records
    else
      var c := created[|created| - 1];
      var rest := WithCreated(records, created[..|created| - 1], version, facts);
      if FindGroup(rest, c.name).Some? then rest else Put(rest, NewGroup(c, version, facts))
  }

  /** The record of a declared group: its grants and members are what was applied. */
  function Overlay(g: ResolvedGroup, prior: seq<ManagedGroup>, baselines: map<string, GroupBaseline>, version: nat, facts: GroupFacts): ManagedGroup {
    var p := FindGroup(prior, g.name);
    var gid :=
      if g.gid.Some? then g.gid
      else if p.Some? && p.value.gid.Some? then p.value.gid
      else if g.name in facts.gids then Some(facts.gids[g.name]) else None;
    var baseline :=
      if g.provenance == Created then None
      else if g.name in baselines then Some(baselines[g.name])
      else if p.Some? then p.value.adoptBaseline else None;
    var from :=
      if p.Some? && p.value.provenance == g.provenance && GroupInSync(g, p.value) then p.value.fromVersion else version;
    ManagedGroup(g.name, gid, g.provenance, g.members, g.sudoCommands, g.fileGrants, baseline, from)
  }

  function WithDeclared(records: seq<ManagedGroup>, groups: seq<ResolvedGroup>, prior: seq<ManagedGroup>, baselines: map<string, GroupBaseline>, version: nat, facts: GroupFacts): seq<ManagedGroup> {
    if groups == [] then records
    else
      Put(WithDeclared(records, groups[..|groups| - 1], prior, baselines, version, facts),
          Overlay(groups[|groups| - 1], prior, baselines, version, facts))
  }

  function ManagedGroupsSpec(required: seq<Requirement>, groups: seq<ResolvedGroup>, prior: seq<ManagedGroup>, created: seq<CreatedGroup>, baselines: map<string, GroupBaseline>, version: nat, facts: GroupFacts): seq<ManagedGroup> {
    WithDeclared(WithCreated(Carried(prior, required), created, version, facts), groups, prior, baselines, version, facts)
  }

  method BuildManagedGroups(required: seq<Requirement>, groups: seq<ResolvedGroup>, prior: seq<ManagedGroup>, created: seq<CreatedGroup>, baselines: map<string, GroupBaseline>, version: nat, facts: GroupFacts)
    returns (out: seq<ManagedGroup>)
    ensures out == ManagedGroupsSpec(required, groups, prior, created, baselines, version, facts)
  {
    out := [];
    for i := 0 to |prior|
      invariant out == Carried(prior[..i], required)
    {
      assert prior[..i + 1][..i] == prior[..i];
      if Required(required, prior[i].name) {
        out := Put(out, prior[i]);
      }
    }
    assert prior[..|prior|] == prior;
    for i := 0 to |created|
      invariant out == WithCreated(Carried(prior, required), created[..i], version, facts)
    {
      assert created[..i + 1][..i] == created[..i];
      if FindGroup(out, created[i].name).None? {
        out := Put(out, NewGroup(created[i], version, facts));
      }
    }
    assert created[..|created|] == created;
    ghost var owned := out;
    for i := 0 to |groups|
      invariant out == WithDeclared(owned, groups[..i], prior, baselines, version, facts)
    {
      assert groups[..i + 1][..i] == groups[..i];
      out := Put(out, Overlay(groups[i], prior, baselines, version, facts));
    }
    assert groups[..|groups|] == groups;
  }
}
