/**
 The diff engine (src/plan.rs): resolved targets against the managed registry.

 A registry is a sequence here with one record per name; the original keys a
 sorted map by name, and nothing below depends on which order that is.
 */
module Plan {
  import opened Outcomes
  import opened Records

  datatype Action =
    | Create(account: ResolvedAccount)
    | Update(account: ResolvedAccount)
    | Delete(name: string)
  {
    function Name(): string {
      match this
      case Create(a) => a.name
      case Update(a) => a.name
      case Delete(n) => n
    }
  }

  datatype GroupAction =
    | CreateGroup(name: string, gid: Option<nat>)
    | Adopt(name: string)
    | Release(name: string)
    | UpdateGroup(name: string)
    | DeleteGroup(name: string)

  datatype GroupPlanError =
    | GidPinConflict(group: string, gid: nat, existing: string)
    | PinnedGidMismatch(group: string, live: nat, pinned: nat)
    | ManagedGidDrift(group: string, live: nat, recorded: nat)

  // ----- accounts -----

  /** No field Census materializes differs between the target and its record. */
  predicate InSync(target: ResolvedAccount, current: ManagedAccount) {
    && target.uid == current.uid
    && target.shell == current.shell
    && SameItems(current.groups, target.groups)
    && target.sudoRole == current.sudoRole
    && SameItems(current.sudoCommands, target.sudoCommands)
    && SameItems(current.fileGrants, target.fileGrants)
  }

  function ActionFor(target: ResolvedAccount, managed: seq<ManagedAccount>): seq<Action> {
    match FindAccount(managed, target.name)
    case None => [Create(target)]
    case Some(current) => if InSync(target, current) then [] else [Update(target)]
  }

  function Changes(targets: seq<ResolvedAccount>, managed: seq<ManagedAccount>): seq<Action> {
    if targets == [] then []
    else Changes(targets[..|targets| - 1], managed) + ActionFor(targets[|targets| - 1], managed)
  }

  predicate Declared(targets: seq<ResolvedAccount>, name: string) {
    exists i :: 0 <= i < |targets| && targets[i].name == name
  }

  function Drops(targets: seq<ResolvedAccount>, managed: seq<ManagedAccount>): seq<Action> {
    if managed == [] then []
    else
      Drops(targets, managed[..|managed| - 1]) +
      (if Declared(targets, managed[|managed| - 1].name) then [] else [Delete(managed[|managed| - 1].name)])
  }

  /** Creates and updates in declaration order, then deletes. */
  function DiffSpec(targets: seq<ResolvedAccount>, managed: seq<ManagedAccount>): seq<Action> {
    Changes(targets, managed) + Drops(targets, managed)
  }

  method Diff(targets: seq<ResolvedAccount>, managed: seq<ManagedAccount>) returns (actions: seq<Action>)
    ensures actions == DiffSpec(targets, managed)
  {
    actions := [];
    for i := 0 to |targets|
      invariant actions == Changes(targets[..i], managed)
    {
      assert targets[..i + 1][..i] == targets[..i];
      var found := FindAccount(managed, targets[i].name);
      if found.None? {
        actions := actions + [Create(targets[i])];
      } else if !InSync(targets[i], found.value) {
        actions := actions + [Update(targets[i])];
      }
    }
    assert targets[..|targets|] == targets;
    for i := 0 to |managed|
      invariant actions == Changes(targets, managed) + Drops(targets, managed[..i])
    {
      assert managed[..i + 1][..i] == managed[..i];
      if !Declared(targets, managed[i].name) {
        actions := actions + [Delete(managed[i].name)];
      }
    }
    assert managed[..|managed|] == managed;
  }

  // ----- what the diff contains -----

  lemma {:induction false} ChangesContain(targets: seq<ResolvedAccount>, managed: seq<ManagedAccount>, a: Action)
    ensures a in Changes(targets, managed) <==>
            exists i :: 0 <= i < |targets| && a in ActionFor(targets[i], managed)
  {
    if targets != [] {
      var n := |targets| - 1;
      ChangesContain(targets[..n], managed, a);
      assert forall i :: 0 <= i < n ==> targets[..n][i] == targets[i];
      if a in Changes(targets, managed) && a !in ActionFor(targets[n], managed) {
        var i :| 0 <= i < n && a in ActionFor(targets[..n][i], managed);
        assert a in ActionFor(targets[i], managed);
      }
    }
  }

  lemma {:induction false} DropsContain(targets: seq<ResolvedAccount>, managed: seq<ManagedAccount>, a: Action)
    ensures a in Drops(targets, managed) <==>
            exists i :: 0 <= i < |managed| && a == Delete(managed[i].name) && !Declared(targets, managed[i].name)
  {
    if managed != [] {
      var n := |managed| - 1;
      DropsContain(targets, managed[..n], a);
      assert forall i :: 0 <= i < n ==> managed[..n][i] == managed[i];
      if a in Drops(targets, managed) && a != Delete(managed[n].name) {
        var i :| 0 <= i < n && a == Delete(managed[..n][i].name) && !Declared(targets, managed[..n][i].name);
        assert a == Delete(managed[i].name);
      }
    }
  }

  predicate Recorded(managed: seq<ManagedAccount>, name: string) {
    exists i :: 0 <= i < |managed| && managed[i].name == name
  }

  /** Some field Census materializes differs; the order of a list is not a difference. */
  predicate Differs(t: ResolvedAccount, m: ManagedAccount) {
    || t.uid != m.uid || t.shell != m.shell || t.sudoRole != m.sudoRole
    || multiset(t.groups) != multiset(m.groups)
    || multiset(t.sudoCommands) != multiset(m.sudoCommands)
    || multiset(t.fileGrants) != multiset(m.fileGrants)
  }

  /** When the registry and the targets disagree in a way `a` settles. */
  predicate CalledFor(targets: seq<ResolvedAccount>, managed: seq<ManagedAccount>, a: Action) {
    match a
    case Create(t) => t in targets && !Recorded(managed, t.name)
    case Update(t) => t in targets && FindAccount(managed, t.name).Some? && Differs(t, FindAccount(managed, t.name).value)
    case Delete(n) => Recorded(managed, n) && !Declared(targets, n)
  }

  lemma FoundIffRecorded(managed: seq<ManagedAccount>, n: string)
    ensures FindAccount(managed, n).Some? <==> Recorded(managed, n)
  {
    var r := FindAccount(managed, n);
    if r.Some? {
      var i :| 0 <= i < |managed| && managed[i] == r.value;
    }
  }

  /**
   The account diff, exactly: a target is created when unrecorded, updated when
   recorded and out of sync; a record is deleted when no target names it.
   */
  lemma DiffContains(targets: seq<ResolvedAccount>, managed: seq<ManagedAccount>, a: Action)
    ensures a in DiffSpec(targets, managed) <==> CalledFor(targets, managed, a)
  {
    ChangesContain(targets, managed, a);
    DropsContain(targets, managed, a);
    FoundIffRecorded(managed, a.Name());
    if !a.Delete? && CalledFor(targets, managed, a) {
      assert a in ActionFor(a.account, managed);
    }
  }

  ghost predicate UniqueTargets(targets: seq<ResolvedAccount>) {
    && (forall i, j :: 0 <= i < j < |targets| ==> targets[i].name != targets[j].name)
    && (forall i, j :: 0 <= i < j < |targets| ==> targets[i].uid != targets[j].uid)
  }

  ghost predicate UniqueNames(managed: seq<ManagedAccount>) {
    forall i, j :: 0 <= i < j < |managed| ==> managed[i].name != managed[j].name
  }

  lemma FindIsUnique(managed: seq<ManagedAccount>, m: ManagedAccount)
    requires UniqueNames(managed) && m in managed
    ensures FindAccount(managed, m.name) == Some(m)
  {
    var i :| 0 <= i < |managed| && managed[i] == m;
    var r := FindAccount(managed, m.name);
    var j :| 0 <= j < |managed| && managed[j] == r.value;
  }

  ghost predicate DistinctNames(actions: seq<Action>) {
    forall i, j :: 0 <= i < j < |actions| ==> actions[i].Name() != actions[j].Name()
  }

  lemma JoinDistinct(a: seq<Action>, b: seq<Action>)
    requires DistinctNames(a) && DistinctNames(b)
    requires forall i, j :: 0 <= i < |a| && 0 <= j < |b| ==> a[i].Name() != b[j].Name()
    ensures DistinctNames(a + b)
  {
  }

  /** The actions of a target name it. */
  lemma ActionNames(target: ResolvedAccount, managed: seq<ManagedAccount>)
    ensures |ActionFor(target, managed)| <= 1 && forall a :: a in ActionFor(target, managed) ==> a.Name() == target.name
  {
    hide InSync, FindAccount;
  }

  lemma {:induction false} ChangesAreDistinct(targets: seq<ResolvedAccount>, managed: seq<ManagedAccount>)
    requires UniqueTargets(targets)
    ensures DistinctNames(Changes(targets, managed))
  {
    hide ActionFor;
    if targets != [] {
      var n := |targets| - 1;
      ChangesAreDistinct(targets[..n], managed);
      var head, last := Changes(targets[..n], managed), ActionFor(targets[n], managed);
      ActionNames(targets[n], managed);
      forall k, l | 0 <= k < |head| && 0 <= l < |last| ensures head[k].Name() != last[l].Name() {
        assert last[l] in last;
        ChangeIsNamed(targets[..n], managed, head[k]);
      }
      JoinDistinct(head, last);
    }
  }

  lemma ChangeIsNamed(targets: seq<ResolvedAccount>, managed: seq<ManagedAccount>, a: Action)
    requires a in Changes(targets, managed)
    ensures exists i :: 0 <= i < |targets| && targets[i].name == a.Name()
  {
    hide ActionFor, Changes;
    ChangesContain(targets, managed, a);
    var i :| 0 <= i < |targets| && a in ActionFor(targets[i], managed);
    ActionNames(targets[i], managed);
  }

  lemma {:induction false} DropsAreDistinct(targets: seq<ResolvedAccount>, managed: seq<ManagedAccount>)
    requires UniqueNames(managed)
    ensures DistinctNames(Drops(targets, managed))
  {
    if managed != [] {
      var n := |managed| - 1;
      DropsAreDistinct(targets, managed[..n]);
      var head := Drops(targets, managed[..n]);
      forall k | 0 <= k < |head| ensures head[k].Name() != managed[n].name {
        DropsContain(targets, managed[..n], head[k]);
      }
    }
  }

  /** One action per account. */
  lemma DiffIsDistinct(targets: seq<ResolvedAccount>, managed: seq<ManagedAccount>)
    requires UniqueTargets(targets) && UniqueNames(managed)
    ensures DistinctNames(DiffSpec(targets, managed))
  {
    hide Changes, Drops;
    ChangesAreDistinct(targets, managed);
    DropsAreDistinct(targets, managed);
    var c, d := Changes(targets, managed), Drops(targets, managed);
    forall i, j | 0 <= i < |c| && 0 <= j < |d| ensures c[i].Name() != d[j].Name() {
      ChangeIsNamed(targets, managed, c[i]);
      DropsContain(targets, managed, d[j]);
    }
    JoinDistinct(c, d);
  }

  // ----- group existence -----

  /** A required group: its name and the GID it is pinned to, if any. */
  datatype Requirement = Requirement(name: string, pin: Option<nat>)

  predicate Required(required: seq<Requirement>, name: string) {
    exists i :: 0 <= i < |required| && required[i].name == name
  }

  /** Entry-or-insert with no pin. */
  function Require(required: seq<Requirement>, name: string): seq<Requirement> {
    if Required(required, name) then required else required + [Requirement(name, None)]
  }

  function RequireAll(required: seq<Requirement>, names: seq<string>): seq<Requirement> {
    if names == [] then required
    else Require(RequireAll(required, names[..|names| - 1]), names[|names| - 1])
  }

  lemma {:induction false} RequireAllRequires(required: seq<Requirement>, names: seq<string>, name: string)
    ensures Required(RequireAll(required, names), name) <==> Required(required, name) || name in names
  {
    if names != [] {
      var n := |names| - 1;
      var prior := RequireAll(required, names[..n]);
      RequireAllRequires(required, names[..n], name);
      assert names == names[..n] + [names[n]];
      if !Required(prior, names[n]) {
        var next := prior + [Requirement(names[n], None)];
        assert next[|prior|].name == names[n];
        assert forall i :: 0 <= i < |prior| ==> next[i] == prior[i];
      }
    }
  }

  /** What the read-only inspector reports: live groups by name, and pinned GIDs by owner. */
  datatype GroupFacts = GroupFacts(gids: map<string, nat>, owners: map<nat, string>)

  function RequirementDefect(q: Requirement, facts: GroupFacts): Option<GroupPlanError> {
    if q.pin.None? then None
    else if q.name in facts.gids then
      if q.pin.value != facts.gids[q.name]
      then Some(PinnedGidMismatch(q.name, facts.gids[q.name], q.pin.value)) else None
    else if q.pin.value in facts.owners && facts.owners[q.pin.value] != q.name
    then Some(GidPinConflict(q.name, q.pin.value, facts.owners[q.pin.value])) else None
  }

  function DriftDefect(g: ManagedGroup, facts: GroupFacts): Option<GroupPlanError> {
    if g.name in facts.gids && g.gid.Some? && facts.gids[g.name] != g.gid.value
    then Some(ManagedGidDrift(g.name, facts.gids[g.name], g.gid.value)) else None
  }

  function GroupCreates(required: seq<Requirement>, facts: GroupFacts): seq<GroupAction> {
    if required == [] then []
    else
      var q := required[|required| - 1];
      GroupCreates(required[..|required| - 1], facts) +
      (if q.name in facts.gids then [] else [CreateGroup(q.name, q.pin)])
  }

  function GroupDeletes(required: seq<Requirement>, managed: seq<ManagedGroup>): seq<GroupAction> {
    if managed == [] then []
    else
      var g := managed[|managed| - 1];
      GroupDeletes(required, managed[..|managed| - 1]) +
      (if !Required(required, g.name) && g.provenance == Created then [DeleteGroup(g.name)] else [])
  }

  /** A pin is met by a live group, free or its own otherwise; no recorded GID has drifted. */
  ghost predicate Consistent(required: seq<Requirement>, managed: seq<ManagedGroup>, facts: GroupFacts) {
    && (forall q :: q in required && q.pin.Some? ==>
          if q.name in facts.gids then facts.gids[q.name] == q.pin.value
          else q.pin.value in facts.owners ==> facts.owners[q.pin.value] == q.name)
    && (forall g :: g in managed && g.gid.Some? && g.name in facts.gids ==> facts.gids[g.name] == g.gid.value)
  }

  /** Groups are created and deleted, or refused, but never renumbered. */
  method DiffGroups(required: seq<Requirement>, managed: seq<ManagedGroup>, facts: GroupFacts)
    returns (r: Result<seq<GroupAction>, GroupPlanError>)
    ensures r.Ok? <==> Consistent(required, managed, facts)
    ensures r.Ok? ==> r.value == GroupCreates(required, facts) + GroupDeletes(required, managed)
  {
    var creates := [];
    for i := 0 to |required|
      invariant creates == GroupCreates(required[..i], facts)
      invariant forall k :: 0 <= k < i ==> RequirementDefect(required[k], facts).None?
    {
      assert required[..i + 1][..i] == required[..i];
      var defect := RequirementDefect(required[i], facts);
      if defect.Some? {
        return Err(defect.value);
      }
      if required[i].name !in facts.gids {
        creates := creates + [CreateGroup(required[i].name, required[i].pin)];
      }
    }
    assert required[..|required|] == required;
    for i := 0 to |managed|
      invariant forall k :: 0 <= k < i ==> DriftDefect(managed[k], facts).None?
    {
      var defect := DriftDefect(managed[i], facts);
      if defect.Some? {
        return Err(defect.value);
      }
    }
    var deletes := [];
    for i := 0 to |managed|
      invariant deletes == GroupDeletes(required, managed[..i])
    {
      assert managed[..i + 1][..i] == managed[..i];
      if !Required(required, managed[i].name) && managed[i].provenance == Created {
        deletes := deletes + [DeleteGroup(managed[i].name)];
      }
    }
    assert managed[..|managed|] == managed;
    return Ok(creates + deletes);
  }

  lemma {:induction false} GroupDeletesContain(required: seq<Requirement>, managed: seq<ManagedGroup>, a: GroupAction)
    ensures a in GroupDeletes(required, managed) <==>
            exists i :: 0 <= i < |managed| && a == DeleteGroup(managed[i].name)
                        && !Required(required, managed[i].name) && managed[i].provenance == Created
  {
    hide Required;
    if managed != [] {
      var n := |managed| - 1;
      GroupDeletesContain(required, managed[..n], a);
      assert forall i :: 0 <= i < n ==> managed[..n][i] == managed[i];
    }
  }

  lemma {:induction false} GroupCreatesContain(required: seq<Requirement>, facts: GroupFacts, a: GroupAction)
    ensures a in GroupCreates(required, facts) <==>
            exists i :: 0 <= i < |required| && a == CreateGroup(required[i].name, required[i].pin)
                        && required[i].name !in facts.gids
  {
    if required != [] {
      var n := |required| - 1;
      GroupCreatesContain(required[..n], facts, a);
      assert forall i :: 0 <= i < n ==> required[..n][i] == required[i];
    }
  }

  // ----- group grants -----

  predicate GroupInSync(target: ResolvedGroup, current: ManagedGroup) {
    && SameItems(current.sudoCommands, target.sudoCommands)
    && SameItems(current.fileGrants, target.fileGrants)
    && SameItems(current.membersAdded, target.members)
  }

  function GrantActionFor(target: ResolvedGroup, managed: seq<ManagedGroup>): seq<GroupAction> {
    match FindGroup(managed, target.name)
    case None => if target.provenance == Created then [CreateGroup(target.name, target.gid)] else [Adopt(target.name)]
    case Some(current) => if GroupInSync(target, current) then [] else [UpdateGroup(target.name)]
  }

  function GrantHeads(targets: seq<ResolvedGroup>, managed: seq<ManagedGroup>): seq<GroupAction> {
    if targets == [] then []
    else GrantHeads(targets[..|targets| - 1], managed) + GrantActionFor(targets[|targets| - 1], managed)
  }

  predicate DeclaredGroup(targets: seq<ResolvedGroup>, name: string) {
    exists i :: 0 <= i < |targets| && targets[i].name == name
  }

  /** A record whose group is no longer declared: the stored provenance decides its fate. */
  function TeardownFor(g: ManagedGroup): GroupAction {
    if g.provenance == Created then DeleteGroup(g.name) else Release(g.name)
  }

  function GrantTeardowns(targets: seq<ResolvedGroup>, managed: seq<ManagedGroup>): seq<GroupAction> {
    if managed == [] then []
    else
      var g := managed[|managed| - 1];
      GrantTeardowns(targets, managed[..|managed| - 1]) +
      (if DeclaredGroup(targets, g.name) then [] else [TeardownFor(g)])
  }

  function DiffResolvedSpec(targets: seq<ResolvedGroup>, managed: seq<ManagedGroup>): seq<GroupAction> {
    GrantHeads(targets, managed) + GrantTeardowns(targets, managed)
  }

  method DiffResolvedGroups(targets: seq<ResolvedGroup>, managed: seq<ManagedGroup>) returns (actions: seq<GroupAction>)
    ensures actions == DiffResolvedSpec(targets, managed)
  {
    hide GroupInSync, DeclaredGroup, FindGroup;
    actions := [];
    for i := 0 to |targets|
      invariant actions == GrantHeads(targets[..i], managed)
    {
      assert targets[..i + 1][..i] == targets[..i];
      var found := FindGroup(managed, targets[i].name);
      if found.None? {
        if targets[i].provenance == Created {
          actions := actions + [CreateGroup(targets[i].name, targets[i].gid)];
        } else {
          actions := actions + [Adopt(targets[i].name)];
        }
      } else if !GroupInSync(targets[i], found.value) {
        actions := actions + [UpdateGroup(targets[i].name)];
      }
    }
    assert targets[..|targets|] == targets;
    for i := 0 to |managed|
      invariant actions == GrantHeads(targets, managed) + GrantTeardowns(targets, managed[..i])
    {
      assert managed[..i + 1][..i] == managed[..i];
      if !DeclaredGroup(targets, managed[i].name) {
        if managed[i].provenance == Created {
          actions := actions + [DeleteGroup(managed[i].name)];
        } else {
          actions := actions + [Release(managed[i].name)];
        }
      }
    }
    assert managed[..|managed|] == managed;
  }

  lemma {:induction false} GrantHeadsContain(targets: seq<ResolvedGroup>, managed: seq<ManagedGroup>, a: GroupAction)
    ensures a in GrantHeads(targets, managed) <==>
            exists i :: 0 <= i < |targets| && a in GrantActionFor(targets[i], managed)
  {
    if targets != [] {
      var n := |targets| - 1;
      GrantHeadsContain(targets[..n], managed, a);
      assert forall i :: 0 <= i < n ==> targets[..n][i] == targets[i];
      if a in GrantHeads(targets, managed) && a !in GrantActionFor(targets[n], managed) {
        var i :| 0 <= i < n && a in GrantActionFor(targets[..n][i], managed);
        assert a in GrantActionFor(targets[i], managed);
      }
    }
  }

  lemma {:induction false} GrantTeardownsContain(targets: seq<ResolvedGroup>, managed: seq<ManagedGroup>, a: GroupAction)
    ensures a in GrantTeardowns(targets, managed) <==>
            exists i :: 0 <= i < |managed| && a == TeardownFor(managed[i]) && !DeclaredGroup(targets, managed[i].name)
  {
    if managed != [] {
      var n := |managed| - 1;
      GrantTeardownsContain(targets, managed[..n], a);
      assert forall i :: 0 <= i < n ==> managed[..n][i] == managed[i];
      if a in GrantTeardowns(targets, managed) && a != TeardownFor(managed[n]) {
        var i :| 0 <= i < n && a == TeardownFor(managed[..n][i]) && !DeclaredGroup(targets, managed[..n][i].name);
        assert a == TeardownFor(managed[i]);
      }
    }
  }

  /** What a declared group calls for, field by field. */
  predicate HeadDue(g: ResolvedGroup, managed: seq<ManagedGroup>, a: GroupAction) {
    match FindGroup(managed, g.name)
    case None => a == (if g.provenance == Created then CreateGroup(g.name, g.gid) else Adopt(g.name))
    case Some(c) =>
      && a == UpdateGroup(g.name)
      && (|| multiset(c.sudoCommands) != multiset(g.sudoCommands)
          || multiset(c.fileGrants) != multiset(g.fileGrants)
          || multiset(c.membersAdded) != multiset(g.members))
  }

  /** What a recorded group that is declared no longer calls for. */
  predicate TeardownDue(p: ManagedGroup, a: GroupAction) {
    a == if p.provenance == Created then DeleteGroup(p.name) else Release(p.name)
  }

  /** The grant plan, exactly: declared groups by their record, undeclared ones by their stored provenance. */
  lemma GrantPlanContains(targets: seq<ResolvedGroup>, managed: seq<ManagedGroup>, a: GroupAction)
    ensures a in DiffResolvedSpec(targets, managed) <==>
            || (exists i :: 0 <= i < |targets| && HeadDue(targets[i], managed, a))
            || (exists i :: 0 <= i < |managed| && TeardownDue(managed[i], a) && !DeclaredGroup(targets, managed[i].name))
  {
    hide DeclaredGroup, GrantActionFor, HeadDue, FindGroup;
    GrantHeadsContain(targets, managed, a);
    GrantTeardownsContain(targets, managed, a);
    forall g: ResolvedGroup ensures a in GrantActionFor(g, managed) <==> HeadDue(g, managed, a) { HeadIsDue(g, managed, a); }
    forall p: ManagedGroup ensures a == TeardownFor(p) <==> TeardownDue(p, a) { }
  }

  lemma HeadIsDue(g: ResolvedGroup, managed: seq<ManagedGroup>, a: GroupAction)
    ensures a in GrantActionFor(g, managed) <==> HeadDue(g, managed, a)
  {
    hide FindGroup;
  }
}
