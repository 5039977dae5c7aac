/** The records of the permission catalog and what they resolve to (src/catalog.rs). */
module CatalogTypes {
  import opened Outcomes
  import opened Records
  import opened Constraints

  datatype Risk = Contained | EscalationCapable

  function MaxRisk(a: Risk, b: Risk): Risk { if a == EscalationCapable then a else b }

  datatype Limits = Limits(nofile: Option<nat>, nproc: Option<nat>)

  /** A bare list replaces what lower layers said, the `append` form adds to it. */
  datatype ListOverride = Replaces(values: seq<string>) | Appends(values: seq<string>)

  /** One binding: a member parameter and a template over the bundle's parameters. */
  datatype Binding = Binding(param: string, template: string)

  /** An include; its bindings stand in key order, one per key. */
  datatype Include = Include(id: string, bindings: seq<Binding>) {
    predicate IsBound() { bindings != [] }
  }

  datatype PermissionDef = PermissionDef(
    id: string, risk: Option<Risk>, category: Option<string>,
    groups: ListOverride, sudo: ListOverride, runas: Option<string>, limits: Option<Limits>,
    replace: bool, includes: seq<Include>, includeCategories: seq<string>,
    files: seq<Grant>, params: map<string, ParamConstraint>)

  /** One OS layer's records; a catalog is its layers from base to version. */
  type Layer = seq<PermissionDef>

  /** A file grant after resolution; its shape is stored, not recomputed by readers. */
  datatype ResolvedGrant = ResolvedGrant(path: string, access: Access, recursive: bool, shape: Shape)

  datatype BoundMember = BoundMember(edge: Include, member: ResolvedPermission)

  datatype ResolvedPermission = ResolvedPermission(
    id: string, risk: Option<Risk>, runas: Option<string>,
    groups: seq<string>, sudo: seq<SudoCommand>, files: seq<ResolvedGrant>, limits: Option<Limits>,
    categoryMembers: seq<(string, seq<string>)>, params: map<string, ParamConstraint>, bound: seq<BoundMember>)

  /** A role's value for a parameter; a number or a flag is the text it renders to. */
  datatype ParamValue = Scalar(text: string) | Items(items: seq<ParamValue>) | Other

  datatype CatalogError =
    | NamespaceCollision(id: string) | ContradictoryRecord(id: string) | InvalidSudoCommand(id: string, value: string)
    | InvalidRunas(id: string, value: string) | InvalidFilePath(id: string, path: string)
    | InvalidGroupName(id: string, value: string)
    | InvalidParamConstraint(id: string) | UnknownBundleParam(id: string, member: string, param: string)
    | UnconstrainedParam(id: string, param: string) | OrphanParamConstraint(id: string)
    | UnknownPermission(id: string) | Cycle(walk: seq<string>) | IncludeTooDeep(id: string, depth: nat)
    | NestedParamMapping(bundle: string, member: string) | ConflictingParamConstraint(id: string)
    | LoweredBundleRisk(id: string)
    | OrphanIncludeBinding(bundle: string, member: string, param: string)
    | UnboundMemberParam(bundle: string, member: string)
    | MissingParam(permission: string, param: string) | InvalidParamValue(permission: string, param: string)
    | ParamConstraintViolation(permission: string, param: string)
    | MultipleListParams(permission: string, first: string, second: string)
    | MultipleExpansionLists(bundle: string)
}
