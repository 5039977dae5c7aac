/**
 The values Census passes between its stages: sudo commands, file grants,
 resolved targets, and the managed records of the registry
 (src/model.rs, src/state.rs, src/catalog.rs).
 */
module Records {
  import opened Outcomes

  /** The access bits of a grant; they compose by union, never as a ladder. */
  datatype Perm = Read | Write | Execute | Traverse

  type Access = set<Perm>

  datatype Shape = Dir | File | Pattern

  predicate HasGlob(path: string) {
    '*' in path || '?' in path || '[' in path
  }

  predicate EndsWithSlash(path: string) {
    |path| > 0 && path[|path| - 1] == '/'
  }

  function ShapeOf(path: string, recursive: bool): Shape {
    if HasGlob(path) then Pattern
    else if recursive || EndsWithSlash(path) then Dir
    else File
  }

  /** A file grant as the registry keeps it: provenance and shape are recomputed. */
  datatype Grant = Grant(path: string, access: Access, recursive: bool) {
    function Shape(): Shape { ShapeOf(path, recursive) }
  }

  datatype SudoCommand = SudoCommand(command: string, runas: Option<string>)

  datatype ResolvedAccount = ResolvedAccount(
    name: string, uid: nat, shell: string, groups: seq<string>,
    sudoRole: Option<string>, sudoCommands: seq<SudoCommand>, fileGrants: seq<Grant>)

  datatype ManagedAccount = ManagedAccount(
    name: string, uid: nat, shell: string, groups: seq<string>,
    sudoRole: Option<string>, sudoCommands: seq<SudoCommand>, fileGrants: seq<Grant>,
    fromVersion: nat)

  datatype Provenance = Created | Adopted

  datatype GroupBaseline = GroupBaseline(gid: Option<nat>, members: seq<string>)

  datatype ResolvedGroup = ResolvedGroup(
    name: string, gid: Option<nat>, provenance: Provenance, members: seq<string>,
    sudoCommands: seq<SudoCommand>, fileGrants: seq<Grant>)

  datatype ManagedGroup = ManagedGroup(
    name: string, gid: Option<nat>, provenance: Provenance, membersAdded: seq<string>,
    sudoCommands: seq<SudoCommand>, fileGrants: seq<Grant>,
    adoptBaseline: Option<GroupBaseline>, fromVersion: nat)

  /** Order-insensitive list equality: equal lengths, then equal sorted lists. */
  predicate SameItems<T(==)>(a: seq<T>, b: seq<T>) {
    multiset(a) == multiset(b)
  }

  /** What a sudoers fragment says: a concrete command list, or a site alias. */
  datatype SudoRule =
    | Commands(subject: string, commands: seq<SudoCommand>)
    | Alias(subject: string, role: string)

  /** The rule a role account's fragment carries, or None when no file should exist. */
  function AccountRule(name: string, commands: seq<SudoCommand>, role: Option<string>): Option<SudoRule> {
    if commands != [] then Some(Commands(name, commands))
    else if role.Some? then Some(Alias(name, role.value))
    else None
  }

  function GroupRule(name: string, commands: seq<SudoCommand>): Option<SudoRule> {
    if commands != [] then Some(Commands("%" + name, commands)) else None
  }

  /** Two rules that grant the same thing: the order of a command list is not part of it. */
  predicate SameRule(a: Option<SudoRule>, b: Option<SudoRule>) {
    match (a, b)
    case (Some(Commands(s, c)), Some(Commands(t, d))) => s == t && SameItems(c, d)
    case _ => a == b
  }

  /** The record registered under a name, if any; a registry keeps one per name. */
  function FindAccount(registry: seq<ManagedAccount>, name: string): (r: Option<ManagedAccount>)
    ensures r.Some? ==> r.value in registry && r.value.name == name
    ensures r.None? ==> forall a :: a in registry ==> a.name != name
  {
    if registry == [] then None
    else if registry[0].name == name then Some(registry[0])
    else FindAccount(registry[1..], name)
  }

  function FindGroup(registry: seq<ManagedGroup>, name: string): (r: Option<ManagedGroup>)
    ensures r.Some? ==> r.value in registry && r.value.name == name
    ensures r.None? ==> forall g :: g in registry ==> g.name != name
  {
    if registry == [] then None
    else if registry[0].name == name then Some(registry[0])
    else FindGroup(registry[1..], name)
  }

  function FindResolvedGroup(groups: seq<ResolvedGroup>, name: string): (r: Option<ResolvedGroup>)
    ensures r.Some? ==> r.value in groups && r.value.name == name
    ensures r.None? ==> forall g :: g in groups ==> g.name != name
  {
    if groups == [] then None
    else if groups[0].name == name then Some(groups[0])
    else FindResolvedGroup(groups[1..], name)
  }
}
