/** The declaration and its validation (src/declaration.rs). */
module DeclarationModel {
  import opened Outcomes
  import opened Records
  import opened Plan

  const SUPPORTED_SCHEMA := 1

  datatype RoleAccount = RoleAccount(
    role: string, uid: Option<nat>, user: Option<string>, adopt: bool, shell: Option<string>)

  datatype GroupSpec = GroupSpec(name: string, gid: Option<nat>, adopt: bool, members: seq<string>)

  datatype RoleGroup = RoleGroup(role: string, group: string)

  datatype Declaration = Declaration(
    schema: nat, version: nat, minUid: nat, maxUid: nat, defaultShell: string,
    accounts: seq<RoleAccount>, groups: seq<GroupSpec>, roleGroups: seq<RoleGroup>)

  datatype DeclarationError =
    | SchemaUnsupported | VersionZero | UidRangeInverted
    | RoleIdInvalid(value: string) | DuplicateRole(role: string)
    | AccountUidAndUser(role: string) | AccountNoIdentity(role: string) | AccountAdoptInconsistent(role: string)
    | UidOutOfRange(role: string) | UidCollision(uid: nat) | UserNameInvalid(value: string)
    | GroupNameInvalid(value: string) | DuplicateGroup(group: string) | GroupAdoptWithGid(group: string)
    | GroupMemberNameInvalid(group: string, value: string) | AdoptedGroupMemberUnmanaged(group: string, value: string)
    | RoleGroupUndeclaredGroup(role: string, group: string) | DuplicateRoleGroup(role: string, group: string)
    | InvalidGroupName(value: string)

  // ----- names -----

  predicate Lower(c: char) { 'a' <= c <= 'z' }

  predicate NameChar(c: char) { Lower(c) || '0' <= c <= '9' || c == '_' || c == '-' }

  /** 1 to 32 characters, a lowercase letter or `_` first. */
  predicate ValidGroupName(name: string) {
    && 1 <= |name| <= 32
    && (Lower(name[0]) || name[0] == '_')
    && forall i :: 1 <= i < |name| ==> NameChar(name[i])
  }

  predicate ValidUserName(name: string) { ValidGroupName(name) }

  /** `^[a-z][a-z0-9-]{0,15}$` */
  predicate ValidRoleId(id: string) {
    && 1 <= |id| <= 16
    && Lower(id[0])
    && forall i :: 1 <= i < |id| ==> NameChar(id[i]) && id[i] != '_'
  }

  const LETTERS := "abcdefghijklmnopqrstuvwxyz"
  const DIGITS := "0123456789"

  /** A role id: a letter, then up to fifteen letters, digits or dashes. */
  lemma RoleIdSpelled(id: string)
    ensures ValidRoleId(id) <==>
            id != "" && |id| <= 16 && id[0] in LETTERS && forall i :: 1 <= i < |id| ==> id[i] in LETTERS || id[i] in DIGITS || id[i] == '-'
  {
    Alphabet();
  }

  /** A group or user name: a letter or underscore, then up to thirty-one letters, digits, underscores or dashes. */
  lemma GroupNameSpelled(name: string)
    ensures ValidGroupName(name) <==>
            && name != "" && |name| <= 32 && (name[0] in LETTERS || name[0] == '_')
            && forall i :: 1 <= i < |name| ==> name[i] in LETTERS || name[i] in DIGITS || name[i] == '_' || name[i] == '-'
    ensures ValidUserName(name) <==> ValidGroupName(name)
  {
    Alphabet();
  }

  lemma Alphabet()
    ensures forall c: char :: c in LETTERS <==> 'a' <= c <= 'z'
    ensures forall c: char :: c in DIGITS <==> '0' <= c <= '9'
  {
    forall c: char | 'a' <= c <= 'z' ensures c in LETTERS { assert LETTERS[(c - 'a') as int] == c; }
    forall c: char | '0' <= c <= '9' ensures c in DIGITS { assert DIGITS[(c - '0') as int] == c; }
  }

  /** A role id may fall into the namespace the group fragments use. */
  lemma RoleIdMayLookLikeAGroupFragment()
    ensures ValidRoleId("grp-wheel") && ValidGroupName("wheel") && "grp-wheel" == "grp-" + "wheel"
  {
  }

  // ----- what a valid declaration is -----

  /** A role account has one identity source, and it agrees with the adoption flag. */
  predicate WellFormedAccount(d: Declaration, a: RoleAccount) {
    && ValidRoleId(a.role)
    && match (a.uid, a.user)
       case (Some(u), None) => !a.adopt && d.minUid <= u <= d.maxUid
       case (None, Some(n)) => a.adopt && ValidUserName(n)
       case _ => false
  }

  function LoginOf(a: RoleAccount): string {
    if a.user.Some? then a.user.value else a.role
  }

  predicate Managed(d: Declaration, login: string) {
    exists i :: 0 <= i < |d.accounts| && LoginOf(d.accounts[i]) == login
  }

  /** A login Census manages: an adopted account's user, or the role itself. */
  lemma ManagedSpelled(d: Declaration, login: string)
    ensures Managed(d, login) <==>
            exists a :: a in d.accounts && (a.user == Some(login) || (a.user == None && a.role == login))
  {
    if Managed(d, login) {
      var i :| 0 <= i < |d.accounts| && LoginOf(d.accounts[i]) == login;
      assert d.accounts[i] in d.accounts;
    }
    if a :| a in d.accounts && (a.user == Some(login) || (a.user == None && a.role == login)) {
      var i :| 0 <= i < |d.accounts| && d.accounts[i] == a;
    }
  }

  predicate WellFormedGroup(d: Declaration, g: GroupSpec) {
    && ValidGroupName(g.name)
    && !(g.adopt && g.gid.Some?)
    && forall i :: 0 <= i < |g.members| ==> ValidUserName(g.members[i]) && (g.adopt ==> Managed(d, g.members[i]))
  }

  predicate DeclaresGroup(d: Declaration, name: string) {
    exists i :: 0 <= i < |d.groups| && d.groups[i].name == name
  }

  predicate WellFormedBinding(d: Declaration, b: RoleGroup) {
    ValidRoleId(b.role) && DeclaresGroup(d, b.group)
  }

  predicate UniqueAccounts(accounts: seq<RoleAccount>) {
    forall i, j :: 0 <= i < j < |accounts| ==>
      accounts[i].role != accounts[j].role && (accounts[i].uid.Some? ==> accounts[i].uid != accounts[j].uid)
  }

  predicate UniqueGroups(groups: seq<GroupSpec>) {
    forall i, j :: 0 <= i < j < |groups| ==> groups[i].name != groups[j].name
  }

  predicate UniqueBindings(bindings: seq<RoleGroup>) {
    forall i, j :: 0 <= i < j < |bindings| ==> bindings[i] != bindings[j]
  }

  predicate ValidDeclaration(d: Declaration) {
    && d.schema <= SUPPORTED_SCHEMA && d.version >= 1 && d.minUid <= d.maxUid
    && (forall i :: 0 <= i < |d.accounts| ==> WellFormedAccount(d, d.accounts[i]))
    && UniqueAccounts(d.accounts)
    && (forall i :: 0 <= i < |d.groups| ==> WellFormedGroup(d, d.groups[i]))
    && UniqueGroups(d.groups)
    && (forall i :: 0 <= i < |d.roleGroups| ==> WellFormedBinding(d, d.roleGroups[i]))
    && UniqueBindings(d.roleGroups)
  }

  // ----- the validator -----

  function AccountDefect(d: Declaration, a: RoleAccount): Option<DeclarationError> {
    match (a.uid, a.user)
    case (Some(_), Some(_)) => Some(AccountUidAndUser(a.role))
    case (None, None) => Some(AccountNoIdentity(a.role))
    case (Some(u), None) =>
      if a.adopt then Some(AccountAdoptInconsistent(a.role))
      else if u < d.minUid || u > d.maxUid then Some(UidOutOfRange(a.role)) else None
    case (None, Some(n)) =>
      if !a.adopt then Some(AccountAdoptInconsistent(a.role))
      else if !ValidUserName(n) then Some(UserNameInvalid(n)) else None
  }

  method ValidateAccounts(d: Declaration) returns (r: Result<(), DeclarationError>)
    ensures r.Ok? <==> (forall i :: 0 <= i < |d.accounts| ==> WellFormedAccount(d, d.accounts[i])) && UniqueAccounts(d.accounts)
  {
    hide ValidUserName;
    var seenRole: set<string>, seenUid: set<nat> := {}, {};
    for i := 0 to |d.accounts|
      invariant forall k :: 0 <= k < i ==> WellFormedAccount(d, d.accounts[k])
      invariant UniqueAccounts(d.accounts[..i])
      invariant forall s :: s in seenRole <==> exists k :: 0 <= k < i && d.accounts[k].role == s
      invariant forall u :: u in seenUid <==> exists k :: 0 <= k < i && d.accounts[k].uid == Some(u)
    {
      var a := d.accounts[i];
      if !ValidRoleId(a.role) {
        return Err(RoleIdInvalid(a.role));
      }
      if a.role in seenRole {
        return Err(DuplicateRole(a.role));
      }
      seenRole := seenRole + {a.role};
      var defect := AccountDefect(d, a);
      if defect.Some? {
        return Err(defect.value);
      }
      if a.uid.Some? {
        if a.uid.value in seenUid {
          return Err(UidCollision(a.uid.value));
        }
        seenUid := seenUid + {a.uid.value};
      }
    }
    assert d.accounts[..|d.accounts|] == d.accounts;
    return Ok(());
  }

  method ValidateGroup(d: Declaration, g: GroupSpec) returns (r: Result<(), DeclarationError>)
    requires ValidGroupName(g.name)
    ensures r.Ok? <==> WellFormedGroup(d, g)
  {
    if g.adopt && g.gid.Some? {
      return Err(GroupAdoptWithGid(g.name));
    }
    for i := 0 to |g.members|
      invariant forall k :: 0 <= k < i ==> ValidUserName(g.members[k]) && (g.adopt ==> Managed(d, g.members[k]))
    {
      if !ValidUserName(g.members[i]) {
        return Err(GroupMemberNameInvalid(g.name, g.members[i]));
      }
      if g.adopt && !Managed(d, g.members[i]) {
        return Err(AdoptedGroupMemberUnmanaged(g.name, g.members[i]));
      }
    }
    return Ok(());
  }

  method ValidateGroups(d: Declaration) returns (r: Result<(), DeclarationError>)
    ensures r.Ok? <==> (forall i :: 0 <= i < |d.groups| ==> WellFormedGroup(d, d.groups[i])) && UniqueGroups(d.groups)
  {
    var seen: set<string> := {};
    for i := 0 to |d.groups|
      invariant forall k :: 0 <= k < i ==> WellFormedGroup(d, d.groups[k])
      invariant UniqueGroups(d.groups[..i])
      invariant forall s :: s in seen <==> exists k :: 0 <= k < i && d.groups[k].name == s
    {
      var g := d.groups[i];
      if !ValidGroupName(g.name) {
        return Err(GroupNameInvalid(g.name));
      }
      if g.name in seen {
        return Err(DuplicateGroup(g.name));
      }
      seen := seen + {g.name};
      var member := ValidateGroup(d, g);
      if member.Err? {
        return member;
      }
    }
    assert d.groups[..|d.groups|] == d.groups;
    return Ok(());
  }

  method ValidateBindings(d: Declaration) returns (r: Result<(), DeclarationError>)
    ensures r.Ok? <==> (forall i :: 0 <= i < |d.roleGroups| ==> WellFormedBinding(d, d.roleGroups[i])) && UniqueBindings(d.roleGroups)
  {
    var seen: set<RoleGroup> := {};
    for i := 0 to |d.roleGroups|
      invariant forall k :: 0 <= k < i ==> WellFormedBinding(d, d.roleGroups[k])
      invariant UniqueBindings(d.roleGroups[..i])
      invariant forall b :: b in seen <==> exists k :: 0 <= k < i && d.roleGroups[k] == b
    {
      var b := d.roleGroups[i];
      if !ValidRoleId(b.role) {
        return Err(RoleIdInvalid(b.role));
      }
      if !DeclaresGroup(d, b.group) {
        return Err(RoleGroupUndeclaredGroup(b.role, b.group));
      }
      if b in seen {
        return Err(DuplicateRoleGroup(b.role, b.group));
      }
      seen := seen + {b};
    }
    assert d.roleGroups[..|d.roleGroups|] == d.roleGroups;
    return Ok(());
  }

  /** Validation accepts exactly the well-formed declarations. */
  method Validate(d: Declaration) returns (r: Result<(), DeclarationError>)
    ensures r.Ok? <==> ValidDeclaration(d)
  {
    if d.schema > SUPPORTED_SCHEMA {
      return Err(SchemaUnsupported);
    }
    if d.version < 1 {
      return Err(VersionZero);
    }
    if d.minUid > d.maxUid {
      return Err(UidRangeInverted);
    }
    r := ValidateAccounts(d);
    if r.Ok? {
      r := ValidateGroups(d);
    }
    if r.Ok? {
      r := ValidateBindings(d);
    }
  }

  // ----- targets and required groups -----

  /** What role composition adds to an account; resolution is not part of this model. */
  datatype Composition = Composition(
    groups: seq<string>, sudoRole: Option<string>, sudoCommands: seq<SudoCommand>, fileGrants: seq<Grant>)

  /** One target per created account; adopted accounts project to nothing. */
  function Targets(d: Declaration, accounts: seq<RoleAccount>, comps: map<string, Composition>): seq<ResolvedAccount>
    requires forall i :: 0 <= i < |accounts| ==> accounts[i].role in comps
  {
    if accounts == [] then []
    else
      var a := accounts[|accounts| - 1];
      var c := comps[a.role];
      Targets(d, accounts[..|accounts| - 1], comps) +
      if a.uid.None? then []
      else [ResolvedAccount(a.role, a.uid.value, if a.shell.Some? then a.shell.value else d.defaultShell,
                            c.groups, c.sudoRole, c.sudoCommands, c.fileGrants)]
  }

  /** What the declaration and the composition make of one account. */
  ghost predicate TargetOf(d: Declaration, a: RoleAccount, c: Composition, t: ResolvedAccount) {
    && t.name == a.role && a.uid == Some(t.uid)
    && (a.shell.Some? ==> t.shell == a.shell.value) && (a.shell.None? ==> t.shell == d.defaultShell)
    && t.groups == c.groups && t.sudoRole == c.sudoRole && t.sudoCommands == c.sudoCommands && t.fileGrants == c.fileGrants
  }

  /** The targets are exactly the accounts with a UID, each with its own shell or the default, and its composition. */
  lemma {:induction false} TargetsExactly(d: Declaration, accounts: seq<RoleAccount>, comps: map<string, Composition>, t: ResolvedAccount)
    requires forall i :: 0 <= i < |accounts| ==> accounts[i].role in comps
    ensures t in Targets(d, accounts, comps) <==> exists i :: 0 <= i < |accounts| && TargetOf(d, accounts[i], comps[accounts[i].role], t)
  {
    if accounts != [] {
      var n := |accounts| - 1;
      TargetsExactly(d, accounts[..n], comps, t);
      assert forall i :: 0 <= i < n ==> accounts[..n][i] == accounts[i];
      if t in Targets(d, accounts[..n], comps) {
        var i :| 0 <= i < n && TargetOf(d, accounts[..n][i], comps[accounts[..n][i].role], t);
        assert TargetOf(d, accounts[i], comps[accounts[i].role], t);
      }
      if i :| 0 <= i < n && TargetOf(d, accounts[i], comps[accounts[i].role], t) {
        assert TargetOf(d, accounts[..n][i], comps[accounts[..n][i].role], t);
      }
    }
  }

  /** A valid declaration resolves to targets with distinct names and distinct UIDs. */
  lemma {:induction false} ValidTargetsAreUnique(d: Declaration, accounts: seq<RoleAccount>, comps: map<string, Composition>)
    requires forall i :: 0 <= i < |accounts| ==> accounts[i].role in comps
    requires UniqueAccounts(accounts)
    ensures UniqueTargets(Targets(d, accounts, comps))
  {
    if accounts != [] {
      var n := |accounts| - 1;
      assert forall i :: 0 <= i < n ==> accounts[..n][i] == accounts[i];
      ValidTargetsAreUnique(d, accounts[..n], comps);
      var head := Targets(d, accounts[..n], comps);
      forall k | 0 <= k < |head|
        ensures head[k].name != accounts[n].role && Some(head[k].uid) != accounts[n].uid
      {
        TargetsExactly(d, accounts[..n], comps, head[k]);
        var i :| 0 <= i < n && TargetOf(d, accounts[..n][i], comps[accounts[..n][i].role], head[k]);
        assert accounts[i].uid.Some?;
      }
    }
  }

  /** Insert or replace the pin of a required group. */
  function Pin(required: seq<Requirement>, q: Requirement): seq<Requirement> {
    if required == [] then [q]
    else if required[0].name == q.name then [q] + required[1..]
    else [required[0]] + Pin(required[1..], q)
  }

  predicate Joined(targets: seq<ResolvedAccount>, group: string) {
    exists i :: 0 <= i < |targets| && group in targets[i].groups
  }

  function RequireJoined(targets: seq<ResolvedAccount>): seq<Requirement> {
    if targets == [] then []
    else RequireAll(RequireJoined(targets[..|targets| - 1]), targets[|targets| - 1].groups)
  }

  function PinDeclared(required: seq<Requirement>, groups: seq<ResolvedGroup>): seq<Requirement> {
    if groups == [] then required
    else
      var g := groups[|groups| - 1];
      Pin(PinDeclared(required, groups[..|groups| - 1]), Requirement(g.name, g.gid))
  }

  /** The groups roles join, then the declared ones with their pins. */
  function RequiredSpec(targets: seq<ResolvedAccount>, groups: seq<ResolvedGroup>): seq<Requirement> {
    PinDeclared(RequireJoined(targets), groups)
  }

  /** Every required name, from either source, must be a valid group name. */
  method RequiredGroups(targets: seq<ResolvedAccount>, groups: seq<ResolvedGroup>)
    returns (r: Result<seq<Requirement>, DeclarationError>)
    ensures r.Ok? ==> r.value == RequiredSpec(targets, groups)
    ensures r.Ok? <==> forall q :: q in RequiredSpec(targets, groups) ==> ValidGroupName(q.name)
  {
    var out := [];
    for i := 0 to |targets|
      invariant out == RequireJoined(targets[..i])
    {
      assert targets[..i + 1][..i] == targets[..i];
      var names := targets[i].groups;
      ghost var start := out;
      for j := 0 to |names|
        invariant out == RequireAll(start, names[..j])
      {
        assert names[..j + 1][..j] == names[..j];
        out := Require(out, names[j]);
      }
      assert names[..|names|] == names;
    }
    assert targets[..|targets|] == targets;
    for i := 0 to |groups|
      invariant out == PinDeclared(RequireJoined(targets), groups[..i])
    {
      assert groups[..i + 1][..i] == groups[..i];
      out := Pin(out, Requirement(groups[i].name, groups[i].gid));
    }
    assert groups[..|groups|] == groups;
    for i := 0 to |out|
      invariant forall k :: 0 <= k < i ==> ValidGroupName(out[k].name)
    {
      if !ValidGroupName(out[i].name) {
        return Err(InvalidGroupName(out[i].name));
      }
    }
    return Ok(out);
  }

  lemma {:induction false} JoinedIsRequired(targets: seq<ResolvedAccount>, n: string)
    ensures Required(RequireJoined(targets), n) <==> Joined(targets, n)
  {
    if targets != [] {
      var k := |targets| - 1;
      JoinedIsRequired(targets[..k], n);
      RequireAllRequires(RequireJoined(targets[..k]), targets[k].groups, n);
      assert forall i :: 0 <= i < k ==> targets[..k][i] == targets[i];
      if Joined(targets, n) && n !in targets[k].groups {
        var i :| 0 <= i < |targets| && n in targets[i].groups;
        assert n in targets[..k][i].groups;
      }
    }
  }

  lemma {:induction false} PinRequires(required: seq<Requirement>, q: Requirement, n: string)
    ensures Required(Pin(required, q), n) <==> Required(required, n) || q.name == n
  {
    if required == [] {
      assert Pin(required, q)[0].name == q.name;
    } else {
      var out := Pin(required, q);
      if required[0].name == q.name {
        assert forall i :: 1 <= i < |out| ==> out[i] == required[i];
        assert out[0].name == required[0].name;
      } else {
        PinRequires(required[1..], q, n);
        var rest := Pin(required[1..], q);
        assert out[0] == required[0];
        assert forall i :: 0 <= i < |rest| ==> out[i + 1] == rest[i];
        assert forall i :: 0 <= i < |required| - 1 ==> required[1..][i] == required[i + 1];
        if Required(rest, n) {
          var i :| 0 <= i < |rest| && rest[i].name == n;
          assert out[i + 1].name == n;
        }
        if Required(required, n) && required[0].name != n {
          var i :| 0 <= i < |required| && required[i].name == n;
          assert required[1..][i - 1].name == n;
        }
        if Required(out, n) && out[0].name != n {
          var i :| 0 <= i < |out| && out[i].name == n;
          assert rest[i - 1].name == n;
        }
      }
    }
  }

  /** The required set, exactly: the groups some target joins and the declared ones. */
  lemma {:induction false} RequiredExactly(targets: seq<ResolvedAccount>, groups: seq<ResolvedGroup>, n: string)
    ensures Required(RequiredSpec(targets, groups), n) <==> Joined(targets, n) || DeclaredGroup(groups, n)
  {
    if groups == [] {
      JoinedIsRequired(targets, n);
    } else {
      var k := |groups| - 1;
      RequiredExactly(targets, groups[..k], n);
      assert forall i :: 0 <= i < k ==> groups[..k][i] == groups[i];
      PinRequires(RequiredSpec(targets, groups[..k]), Requirement(groups[k].name, groups[k].gid), n);
      if DeclaredGroup(groups, n) && groups[k].name != n {
        var i :| 0 <= i < |groups| && groups[i].name == n;
        assert groups[..k][i].name == n;
      }
    }
  }
}
