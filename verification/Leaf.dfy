/** Merging one permission's records across the OS layers (src/catalog.rs). */
module Leaf {
  import opened Outcomes
  import opened Records
  import opened Constraints
  import opened CatalogTypes
  import opened Grants

  datatype LeafState = LeafState(
    groups: seq<string>, sudo: seq<string>, files: seq<Grant>, risk: Option<Risk>, runas: Option<string>,
    limits: Option<Limits>, params: map<string, ParamConstraint>)

  const BLANK := LeafState([], [], [], None, None, None, map[])

  function FindDef(layer: Layer, id: string): (r: Option<PermissionDef>)
    ensures r.Some? ==> r.value in layer && r.value.id == id
    ensures r.None? ==> forall d :: d in layer ==> d.id != id
  {
    if layer == [] then None
    else if layer[0].id == id then Some(layer[0])
    else FindDef(layer[1..], id)
  }

  /** The records that state an id, base layer first. */
  function Stated(layers: seq<Layer>, id: string): (r: seq<PermissionDef>)
    ensures forall d :: d in r ==> exists i :: 0 <= i < |layers| && d in layers[i] && d.id == id
    decreases |layers|
  {
    if layers == [] then [] else
    var d := FindDef(layers[|layers| - 1], id);
    assert forall i :: 0 <= i < |layers| - 1 ==> layers[..|layers| - 1][i] == layers[i];
    Stated(layers[..|layers| - 1], id) + (if d.Some? then [d.value] else [])
  }

  predicate Defined(layers: seq<Layer>, id: string) { Stated(layers, id) != [] }

  function Override(acc: seq<string>, ov: ListOverride): seq<string> {
    if ov.Replaces? then ov.values else acc + ov.values
  }

  function OrElse<T>(a: Option<T>, b: Option<T>): Option<T> { if a.Some? then a else b }

  /** One layer's statement on top of what the lower layers accumulated. */
  function ApplyLayer(st: LeafState, d: PermissionDef): LeafState {
    var base := if d.replace then BLANK.(risk := st.risk, runas := st.runas) else st;
    LeafState(
      Override(base.groups, d.groups), Override(base.sudo, d.sudo), base.files + d.files,
      OrElse(d.risk, base.risk), OrElse(d.runas, base.runas), OrElse(d.limits, base.limits), base.params + d.params)
  }

  function Fold(defs: seq<PermissionDef>): LeafState
    decreases |defs|
  {
    if defs == [] then BLANK else ApplyLayer(Fold(defs[..|defs| - 1]), defs[|defs| - 1])
  }

  function Stamped(commands: seq<string>, runas: Option<string>): seq<SudoCommand> {
    seq(|commands|, i requires 0 <= i < |commands| => SudoCommand(commands[i], runas))
  }

  function ResolveAll(gs: seq<Grant>): seq<ResolvedGrant> {
    seq(|gs|, i requires 0 <= i < |gs| => Resolve(gs[i]))
  }

  function Finished(id: string, st: LeafState): ResolvedPermission {
    ResolvedPermission(id, st.risk, st.runas, st.groups, Stamped(st.sudo, st.runas), Union([], ResolveAll(st.files)),
      st.limits, [], st.params, [])
  }

  function LeafOf(layers: seq<Layer>, id: string): Result<ResolvedPermission, CatalogError> {
    if Defined(layers, id) then Ok(Finished(id, Fold(Stated(layers, id)))) else Err(UnknownPermission(id))
  }

  /** One layer's effect on the accumulators: a full replacement wipes them first. */
  method ApplyDef(before: LeafState, d: PermissionDef) returns (st: LeafState)
    ensures st == ApplyLayer(before, d)
  {
    st := before;
    if d.replace {
      st := st.(groups := [], sudo := [], files := [], limits := None, params := map[]);
    }
    st := st.(groups := if d.groups.Replaces? then d.groups.values else st.groups + d.groups.values);
    st := st.(sudo := if d.sudo.Replaces? then d.sudo.values else st.sudo + d.sudo.values);
    st := st.(files := st.files + d.files, params := st.params + d.params);
    if d.risk.Some? { st := st.(risk := d.risk); }
    if d.runas.Some? { st := st.(runas := d.runas); }
    if d.limits.Some? { st := st.(limits := d.limits); }
  }

  method Stamp(commands: seq<string>, runas: Option<string>) returns (out: seq<SudoCommand>)
    ensures out == Stamped(commands, runas)
  {
    out := [];
    for i := 0 to |commands|
      invariant |out| == i && forall k :: 0 <= k < i ==> out[k] == SudoCommand(commands[k], runas)
    {
      out := out + [SudoCommand(commands[i], runas)];
    }
  }

  lemma StatedGrows(layers: seq<Layer>, id: string, i: nat)
    requires i < |layers|
    ensures var d := FindDef(layers[i], id);
            && (d.None? ==> Stated(layers[..i + 1], id) == Stated(layers[..i], id))
            && (d.Some? ==> Defined(layers[..i + 1], id) && Fold(Stated(layers[..i + 1], id)) == ApplyLayer(Fold(Stated(layers[..i], id)), d.value))
  {
    assert layers[..i + 1][..i] == layers[..i];
    var d := FindDef(layers[i], id);
    if d.Some? {
      var all := Stated(layers[..i], id) + [d.value];
      assert all[..|all| - 1] == Stated(layers[..i], id);
    }
  }

  /** `resolve_leaf`: one accumulator per field, updated layer by layer. */
  method ResolveLeaf(layers: seq<Layer>, id: string) returns (r: Result<ResolvedPermission, CatalogError>)
    ensures r == LeafOf(layers, id)
  {
    var st, found := BLANK, false;
    for i := 0 to |layers|
      invariant found <==> Defined(layers[..i], id)
      invariant st == Fold(Stated(layers[..i], id))
    {
      StatedGrows(layers, id, i);
      var def := FindDef(layers[i], id);
      if def.Some? {
        found := true;
        st := ApplyDef(st, def.value);
      }
    }
    assert layers[..|layers|] == layers;
    if !found {
      return Err(UnknownPermission(id));
    }
    var commands := Stamp(st.sudo, st.runas);
    var files := UnionInto([], ResolveAll(st.files));
    return Ok(ResolvedPermission(id, st.risk, st.runas, st.groups, commands, files, st.limits, [], st.params, []));
  }

  // ----- the closed form -----

  /** The last record for which `p` holds, or the first record when none does. */
  function Topmost(defs: seq<PermissionDef>, p: PermissionDef -> bool): (k: nat)
    ensures k <= |defs|
    ensures forall i :: k < i < |defs| ==> !p(defs[i])
    ensures 0 < k ==> k < |defs| && p(defs[k])
    decreases |defs|
  {
    if defs == [] then 0
    else if p(defs[|defs| - 1]) then |defs| - 1
    else Topmost(defs[..|defs| - 1], p)
  }

  function OverridesGroups(): PermissionDef -> bool { (d: PermissionDef) => d.replace || d.groups.Replaces? }

  function OverridesSudo(): PermissionDef -> bool { (d: PermissionDef) => d.replace || d.sudo.Replaces? }

  function ReplacesAll(): PermissionDef -> bool { (d: PermissionDef) => d.replace }

  function Everything<T>(defs: seq<PermissionDef>, f: PermissionDef -> seq<T>): seq<T>
    decreases |defs|
  {
    if defs == [] then [] else Everything(defs[..|defs| - 1], f) + f(defs[|defs| - 1])
  }

  /** The topmost record that sets an optional field. */
  function TopSetter<T>(defs: seq<PermissionDef>, f: PermissionDef -> Option<T>): Option<T>
    decreases |defs|
  {
    if defs == [] then None
    else if f(defs[|defs| - 1]).Some? then f(defs[|defs| - 1])
    else TopSetter(defs[..|defs| - 1], f)
  }

  function ParamOf(name: string): PermissionDef -> Option<ParamConstraint> {
    (d: PermissionDef) => if name in d.params then Some(d.params[name]) else None
  }

  /** The records from the topmost one satisfying `p` upwards. */
  function From(defs: seq<PermissionDef>, p: PermissionDef -> bool): seq<PermissionDef> { defs[Topmost(defs, p)..] }

  lemma FromLast(defs: seq<PermissionDef>, p: PermissionDef -> bool)
    requires defs != []
    ensures From(defs, p) == (if p(defs[|defs| - 1]) then [] else From(defs[..|defs| - 1], p)) + [defs[|defs| - 1]]
  {
    var k := Topmost(defs, p);
    if p(defs[|defs| - 1]) {
      assert defs[k..] == [defs[|defs| - 1]];
    } else {
      assert defs[k..] == defs[..|defs| - 1][k..] + [defs[|defs| - 1]];
    }
  }

  lemma EverythingLast<T>(defs: seq<PermissionDef>, d: PermissionDef, f: PermissionDef -> seq<T>)
    ensures Everything(defs + [d], f) == Everything(defs, f) + f(d)
  {
    assert (defs + [d])[..|defs|] == defs;
  }

  lemma TopSetterLast<T>(defs: seq<PermissionDef>, d: PermissionDef, f: PermissionDef -> Option<T>)
    ensures TopSetter(defs + [d], f) == OrElse(f(d), TopSetter(defs, f))
  {
    assert (defs + [d])[..|defs|] == defs;
  }

  lemma EverythingFrom<T>(defs: seq<PermissionDef>, p: PermissionDef -> bool, f: PermissionDef -> seq<T>)
    requires defs != []
    ensures Everything(From(defs, p), f)
         == (if p(defs[|defs| - 1]) then [] else Everything(From(defs[..|defs| - 1], p), f)) + f(defs[|defs| - 1])
  {
    FromLast(defs, p);
    EverythingLast(if p(defs[|defs| - 1]) then [] else From(defs[..|defs| - 1], p), defs[|defs| - 1], f);
  }

  lemma TopSetterFrom<T>(defs: seq<PermissionDef>, p: PermissionDef -> bool, f: PermissionDef -> Option<T>)
    requires defs != []
    ensures TopSetter(From(defs, p), f)
         == OrElse(f(defs[|defs| - 1]), if p(defs[|defs| - 1]) then None else TopSetter(From(defs[..|defs| - 1], p), f))
  {
    FromLast(defs, p);
    TopSetterLast(if p(defs[|defs| - 1]) then [] else From(defs[..|defs| - 1], p), defs[|defs| - 1], f);
  }

  /** Lists: the topmost overriding layer's values, then every append above it. */
  lemma {:induction false} ListsClosedForm(defs: seq<PermissionDef>)
    ensures Fold(defs).groups == Everything(From(defs, OverridesGroups()), (d: PermissionDef) => d.groups.values)
    ensures Fold(defs).sudo == Everything(From(defs, OverridesSudo()), (d: PermissionDef) => d.sudo.values)
    ensures Fold(defs).files == Everything(From(defs, ReplacesAll()), (d: PermissionDef) => d.files)
    decreases |defs|
  {
    if defs != [] {
      ListsClosedForm(defs[..|defs| - 1]);
      EverythingFrom(defs, OverridesGroups(), (d: PermissionDef) => d.groups.values);
      EverythingFrom(defs, OverridesSudo(), (d: PermissionDef) => d.sudo.values);
      EverythingFrom(defs, ReplacesAll(), (d: PermissionDef) => d.files);
    }
  }

  /** Risk and run-as come from the topmost setter of all layers; limits and constraints only from layers at or above the topmost full replacement. */
  lemma {:induction false} SettersClosedForm(defs: seq<PermissionDef>, name: string)
    ensures Fold(defs).risk == TopSetter(defs, (d: PermissionDef) => d.risk)
    ensures Fold(defs).runas == TopSetter(defs, (d: PermissionDef) => d.runas)
    ensures Fold(defs).limits == TopSetter(From(defs, ReplacesAll()), (d: PermissionDef) => d.limits)
    ensures (if name in Fold(defs).params then Some(Fold(defs).params[name]) else None)
         == TopSetter(From(defs, ReplacesAll()), ParamOf(name))
    decreases |defs|
  {
    if defs != [] {
      SettersClosedForm(defs[..|defs| - 1], name);
      TopSetterFrom(defs, ReplacesAll(), (d: PermissionDef) => d.limits);
      TopSetterFrom(defs, ReplacesAll(), ParamOf(name));
    }
  }

  /** A leaf carries its one run-as account on every command, and one well-shaped file entry per path. */
  lemma LeafIsStamped(layers: seq<Layer>, id: string)
    requires Defined(layers, id)
    ensures var r := LeafOf(layers, id).value;
            && (forall i :: 0 <= i < |r.sudo| ==> r.sudo[i].runas == r.runas)
            && UniquePaths(r.files) && WellShaped(r.files) && r.bound == []
  {
    UnionKeeps([], ResolveAll(Fold(Stated(layers, id)).files));
  }

  function GroupValues(): PermissionDef -> seq<string> { (d: PermissionDef) => d.groups.values }

  function SudoValues(): PermissionDef -> seq<string> { (d: PermissionDef) => d.sudo.values }

  function FileValues(): PermissionDef -> seq<Grant> { (d: PermissionDef) => d.files }

  /** A leaf, field by field: lists from the topmost overriding record upwards, single values from the topmost that sets them. */
  lemma LeafClosedForm(layers: seq<Layer>, id: string, name: string, f: GrantFact)
    ensures LeafOf(layers, id).Ok? <==> exists i :: 0 <= i < |layers| && FindDef(layers[i], id).Some?
    ensures LeafOf(layers, id).Ok? ==>
              var r, defs := LeafOf(layers, id).value, Stated(layers, id);
              var commands, files := Everything(From(defs, OverridesSudo()), SudoValues()), Everything(From(defs, ReplacesAll()), FileValues());
              && r.id == id && r.risk == TopSetter(defs, (d: PermissionDef) => d.risk) && r.runas == TopSetter(defs, (d: PermissionDef) => d.runas)
              && r.groups == Everything(From(defs, OverridesGroups()), GroupValues())
              && |r.sudo| == |commands| && (forall i :: 0 <= i < |commands| ==> r.sudo[i] == SudoCommand(commands[i], r.runas))
              && (Holds(r.files, f) <==> exists g :: g in files && Says(ResolvedGrant(g.path, g.access, g.recursive, ShapeOf(g.path, g.recursive)), f))
              && r.limits == TopSetter(From(defs, ReplacesAll()), (d: PermissionDef) => d.limits)
              && (if name in r.params then Some(r.params[name]) else None) == TopSetter(From(defs, ReplacesAll()), ParamOf(name))
              && r.bound == [] && r.categoryMembers == []
  {
    hide Fold, From, Everything, TopSetter, Says, FindDef, Union;
    var defs := Stated(layers, id);
    ListsClosedForm(defs);
    SettersClosedForm(defs, name);
    SameLists(defs);
    StatedSomewhere(layers, id);
    UnionSays([], ResolveAll(Fold(defs).files), f);
    ResolvedHolds(Fold(defs).files, f);
  }

  lemma SameLists(defs: seq<PermissionDef>)
    ensures Everything(From(defs, OverridesGroups()), (d: PermissionDef) => d.groups.values) == Everything(From(defs, OverridesGroups()), GroupValues())
    ensures Everything(From(defs, OverridesSudo()), (d: PermissionDef) => d.sudo.values) == Everything(From(defs, OverridesSudo()), SudoValues())
    ensures Everything(From(defs, ReplacesAll()), (d: PermissionDef) => d.files) == Everything(From(defs, ReplacesAll()), FileValues())
  {
    EverythingAgrees(From(defs, OverridesGroups()), (d: PermissionDef) => d.groups.values, GroupValues());
    EverythingAgrees(From(defs, OverridesSudo()), (d: PermissionDef) => d.sudo.values, SudoValues());
    EverythingAgrees(From(defs, ReplacesAll()), (d: PermissionDef) => d.files, FileValues());
  }

  lemma {:induction false} EverythingAgrees<T>(defs: seq<PermissionDef>, f: PermissionDef -> seq<T>, g: PermissionDef -> seq<T>)
    requires forall d :: f(d) == g(d)
    ensures Everything(defs, f) == Everything(defs, g)
    decreases |defs|
  {
    if defs != [] { EverythingAgrees(defs[..|defs| - 1], f, g); }
  }

  lemma {:induction false} StatedSomewhere(layers: seq<Layer>, id: string)
    ensures Defined(layers, id) <==> exists i :: 0 <= i < |layers| && FindDef(layers[i], id).Some?
    decreases |layers|
  {
    if layers != [] {
      var n := |layers| - 1;
      StatedSomewhere(layers[..n], id);
      assert forall i :: 0 <= i < n ==> layers[..n][i] == layers[i];
      if i :| 0 <= i < n && FindDef(layers[..n][i], id).Some? { assert FindDef(layers[i], id).Some?; }
      if i :| 0 <= i < n && FindDef(layers[i], id).Some? { assert FindDef(layers[..n][i], id).Some?; }
    }
  }

  lemma ResolvedHolds(gs: seq<Grant>, f: GrantFact)
    ensures Holds(ResolveAll(gs), f) <==> exists g :: g in gs && Says(ResolvedGrant(g.path, g.access, g.recursive, ShapeOf(g.path, g.recursive)), f)
  {
    if Holds(ResolveAll(gs), f) {
      var i :| 0 <= i < |ResolveAll(gs)| && Says(ResolveAll(gs)[i], f);
      assert gs[i] in gs;
    }
    if g :| g in gs && Says(ResolvedGrant(g.path, g.access, g.recursive, ShapeOf(g.path, g.recursive)), f) {
      var i :| 0 <= i < |gs| && gs[i] == g;
      assert Says(ResolveAll(gs)[i], f);
    }
  }
}
