/** Resolving a bundle: its own primitives and those of its members, transitively (src/catalog.rs). */
module Resolver {
  import opened Outcomes
  import opened Records
  import opened Constraints
  import opened Templates
  import opened CatalogTypes
  import opened CatalogRecords
  import opened Grants
  import opened Leaf
  import opened Expansion

  const MAX_INCLUDE_DEPTH: nat := 64

  // ----- what a permission aggregates -----

  function IncludesOf(defs: seq<PermissionDef>): seq<Include>
    decreases |defs|
  {
    if defs == [] then [] else AddNew(IncludesOf(defs[..|defs| - 1]), defs[|defs| - 1].includes)
  }

  function CategoriesOf(defs: seq<PermissionDef>): seq<string>
    decreases |defs|
  {
    if defs == [] then [] else AddNew(CategoriesOf(defs[..|defs| - 1]), defs[|defs| - 1].includeCategories)
  }

  function AllDefs(layers: seq<Layer>): seq<PermissionDef>
    decreases |layers|
  {
    if layers == [] then [] else AllDefs(layers[..|layers| - 1]) + layers[|layers| - 1]
  }

  /** The ids a category holds, in catalog order. */
  function InCategory(defs: seq<PermissionDef>, cat: string): seq<string>
    decreases |defs|
  {
    if defs == [] then [] else
    var d := defs[|defs| - 1];
    AddNew(InCategory(defs[..|defs| - 1], cat), if d.category == Some(cat) then [d.id] else [])
  }

  function Materialized(defs: seq<PermissionDef>, cats: seq<string>): seq<string>
    decreases |cats|
  {
    if cats == [] then [] else AddNew(Materialized(defs, cats[..|cats| - 1]), InCategory(defs, cats[|cats| - 1]))
  }

  function BareIds(includes: seq<Include>): seq<string>
    decreases |includes|
  {
    if includes == [] then [] else
    var inc := includes[|includes| - 1];
    AddNew(BareIds(includes[..|includes| - 1]), if inc.IsBound() then [] else [inc.id])
  }

  function BoundIncludes(includes: seq<Include>): seq<Include>
    decreases |includes|
  {
    if includes == [] then [] else
    var inc := includes[|includes| - 1];
    BoundIncludes(includes[..|includes| - 1]) + (if inc.IsBound() then [inc] else [])
  }

  function Includes(layers: seq<Layer>, id: string): seq<Include> { IncludesOf(Stated(layers, id)) }

  function Categories(layers: seq<Layer>, id: string): seq<string> { CategoriesOf(Stated(layers, id)) }

  predicate IsLeaf(layers: seq<Layer>, id: string) { Includes(layers, id) == [] && Categories(layers, id) == [] }

  /** Members flattened into the bundle: bare includes, then what the categories hold. */
  function Members(layers: seq<Layer>, id: string): seq<string> {
    AddNew([], BareIds(Includes(layers, id)) + Materialized(AllDefs(layers), Categories(layers, id)))
  }

  /** Members reached through bindings. */
  function Bindings(layers: seq<Layer>, id: string): seq<Include> { BoundIncludes(Includes(layers, id)) }

  // ----- the accumulators -----

  datatype Acc = Acc(
    prims: Primitives, limits: Option<Limits>, params: Rules, known: Option<Risk>, unknown: bool, bound: seq<BoundMember>)

  function Start(own: ResolvedPermission): Acc { Acc(Of(own), own.limits, own.params, None, false, []) }

  function FoldRisk(acc: Acc, risk: Option<Risk>): Acc {
    if risk.None? then acc.(unknown := true)
    else acc.(known := Some(if acc.known.Some? then MaxRisk(acc.known.value, risk.value) else risk.value))
  }

  function Joined(a: Primitives, b: Primitives): Primitives {
    Primitives(AddNew(a.groups, b.groups), AddNew(a.sudo, b.sudo), Union(a.files, b.files))
  }

  /** Some name constrained on both sides with a different meaning. */
  predicate Conflicting(a: Rules, b: Rules) {
    exists n :: n in a && n in b && Normalized(a[n]) != Normalized(b[n])
  }

  /** Flatten one member into the bundle. */
  function AddMember(bundle: string, acc: Acc, member: string, r: ResolvedPermission): Result<Acc, CatalogError> {
    if r.bound != [] then Err(NestedParamMapping(bundle, member))
    else if Conflicting(acc.params, r.params) then Err(ConflictingParamConstraint(bundle))
    else
      var a := FoldRisk(acc, r.risk);
      Ok(a.(prims := Joined(acc.prims, Of(r)), params := r.params + acc.params, limits := OrElse(acc.limits, r.limits)))
  }

  predicate Deferred(inc: Include) {
    exists i :: 0 <= i < |inc.bindings| && HasPlaceholder(inc.bindings[i].template)
  }

  /** A literal binding is expanded now; one over the bundle's parameters waits for the role. */
  function AddBound(bundle: string, acc: Acc, inc: Include, r: ResolvedPermission): Result<Acc, CatalogError> {
    if r.bound != [] then Err(NestedParamMapping(bundle, inc.id))
    else
      var a := FoldRisk(acc, r.risk);
      if Deferred(inc) then Ok(a.(bound := acc.bound + [BoundMember(inc, r)]))
      else
        var e := Expanded(bundle, BoundMember(inc, r), map[], map[]);
        if e.Err? then Err(e.error) else Ok(a.(prims := Joined(acc.prims, e.value)))
  }

  function MemberRisk(acc: Acc): Option<Risk> { if acc.unknown then Some(EscalationCapable) else acc.known }

  function CategoryTable(layers: seq<Layer>, cats: seq<string>): seq<(string, seq<string>)> {
    seq(|cats|, i requires 0 <= i < |cats| => (cats[i], InCategory(AllDefs(layers), cats[i])))
  }

  /** The bundle's risk is the larger of its own and its members'; declaring less is refused. */
  function Finish(layers: seq<Layer>, id: string, own: ResolvedPermission, acc: Acc): Result<ResolvedPermission, CatalogError> {
    var computed := MemberRisk(acc);
    if own.risk == Some(Contained) && computed == Some(EscalationCapable) then Err(LoweredBundleRisk(id))
    else
      var risk := if own.risk.Some? && computed.Some? then Some(MaxRisk(own.risk.value, computed.value)) else OrElse(own.risk, computed);
      Ok(ResolvedPermission(id, risk, own.runas, acc.prims.groups, acc.prims.sudo, acc.prims.files, acc.limits,
        CategoryTable(layers, Categories(layers, id)), acc.params, acc.bound))
  }

  // ----- the recursion -----

  function IndexOf(path: seq<string>, id: string): (k: nat)
    requires id in path
    ensures k < |path| && path[k] == id && id !in path[..k]
  {
    if path[0] == id then 0 else 1 + IndexOf(path[1..], id)
  }

  /** `resolve_inner`: the ids being expanded are `path`. */
  function Resolution(layers: seq<Layer>, id: string, path: seq<string>): Result<ResolvedPermission, CatalogError>
    requires |path| <= MAX_INCLUDE_DEPTH
    decreases MAX_INCLUDE_DEPTH - |path|, 0
  {
    if id in path then Err(Cycle(path[IndexOf(path, id)..] + [id]))
    else if |path| == MAX_INCLUDE_DEPTH then Err(IncludeTooDeep(id, |path|))
    else if IsLeaf(layers, id) then LeafOf(layers, id)
    else
      var own := LeafOf(layers, id);
      if own.Err? then own else
      var flat := Flattened(layers, id, path + [id], Members(layers, id), Start(own.value));
      if flat.Err? then Err(flat.error) else
      var all := WithBound(layers, id, path + [id], Bindings(layers, id), flat.value);
      if all.Err? then Err(all.error) else Finish(layers, id, own.value, all.value)
  }

  function Flattened(layers: seq<Layer>, bundle: string, path: seq<string>, members: seq<string>, start: Acc): Result<Acc, CatalogError>
    requires |path| <= MAX_INCLUDE_DEPTH
    decreases MAX_INCLUDE_DEPTH - |path|, 1 + |members|
  {
    if members == [] then Ok(start) else
    var n := |members| - 1;
    var acc := Flattened(layers, bundle, path, members[..n], start);
    if acc.Err? then acc else
    var r := Resolution(layers, members[n], path);
    if r.Err? then Err(r.error) else AddMember(bundle, acc.value, members[n], r.value)
  }

  function WithBound(layers: seq<Layer>, bundle: string, path: seq<string>, incs: seq<Include>, start: Acc): Result<Acc, CatalogError>
    requires |path| <= MAX_INCLUDE_DEPTH
    decreases MAX_INCLUDE_DEPTH - |path|, 1 + |incs|
  {
    if incs == [] then Ok(start) else
    var n := |incs| - 1;
    var acc := WithBound(layers, bundle, path, incs[..n], start);
    if acc.Err? then acc else
    var r := Resolution(layers, incs[n].id, path);
    if r.Err? then Err(r.error) else AddBound(bundle, acc.value, incs[n], r.value)
  }

  // ----- the code -----

  /** `aggregation_for`: both lists, unioned over the layers. */
  method AggregationFor(layers: seq<Layer>, id: string) returns (includes: seq<Include>, cats: seq<string>)
    ensures includes == Includes(layers, id) && cats == Categories(layers, id)
  {
    includes, cats := [], [];
    for i := 0 to |layers|
      invariant includes == Includes(layers[..i], id) && cats == Categories(layers[..i], id)
    {
      AggregationGrows(layers, id, i);
      var d := FindDef(layers[i], id);
      if d.Some? {
        includes := AddNewInto(includes, d.value.includes);
        cats := AddNewInto(cats, d.value.includeCategories);
      }
    }
    assert layers[..|layers|] == layers;
  }

  lemma AggregationGrows(layers: seq<Layer>, id: string, i: nat)
    requires i < |layers|
    ensures var d := FindDef(layers[i], id);
            && Includes(layers[..i + 1], id) == (if d.Some? then AddNew(Includes(layers[..i], id), d.value.includes) else Includes(layers[..i], id))
            && Categories(layers[..i + 1], id) == (if d.Some? then AddNew(Categories(layers[..i], id), d.value.includeCategories) else Categories(layers[..i], id))
  {
    assert layers[..i + 1][..i] == layers[..i];
    var d := FindDef(layers[i], id);
    if d.Some? {
      var all := Stated(layers[..i], id) + [d.value];
      assert all[..|all| - 1] == Stated(layers[..i], id);
    } else {
      assert Stated(layers[..i + 1], id) == Stated(layers[..i], id);
    }
  }

  method MaterializeCategory(all: seq<PermissionDef>, cat: string) returns (members: seq<string>)
    ensures members == InCategory(all, cat)
  {
    members := [];
    for i := 0 to |all|
      invariant members == InCategory(all[..i], cat)
    {
      assert all[..i + 1][..i] == all[..i];
      members := AddNewInto(members, if all[i].category == Some(cat) then [all[i].id] else []);
    }
    assert all[..|all|] == all;
  }

  method MaterializeCategories(layers: seq<Layer>, cats: seq<string>) returns (table: seq<(string, seq<string>)>, members: seq<string>)
    ensures table == CategoryTable(layers, cats) && members == Materialized(AllDefs(layers), cats)
  {
    hide AddNew;
    table, members := [], [];
    for i := 0 to |cats|
      invariant |table| == i && forall k :: 0 <= k < i ==> table[k] == (cats[k], InCategory(AllDefs(layers), cats[k]))
      invariant members == Materialized(AllDefs(layers), cats[..i])
    {
      assert cats[..i + 1][..i] == cats[..i];
      var ids := MaterializeCategory(AllDefs(layers), cats[i]);
      members := AddNewInto(members, ids);
      table := table + [(cats[i], ids)];
    }
    assert cats[..|cats|] == cats;
  }

  method SplitIncludes(includes: seq<Include>) returns (bare: seq<string>, incs: seq<Include>)
    ensures bare == BareIds(includes) && incs == BoundIncludes(includes)
  {
    bare, incs := [], [];
    for i := 0 to |includes|
      invariant bare == BareIds(includes[..i]) && incs == BoundIncludes(includes[..i])
    {
      assert includes[..i + 1][..i] == includes[..i];
      if includes[i].IsBound() {
        incs := incs + [includes[i]];
      } else {
        bare := AddNewInto(bare, [includes[i].id]);
      }
    }
    assert includes[..|includes|] == includes;
  }

  /** The union of two primitive lists, list by list. */
  method JoinInto(a: Primitives, b: Primitives) returns (c: Primitives)
    ensures c == Joined(a, b)
  {
    var groups := AddNewInto(a.groups, b.groups);
    var sudo := AddNewInto(a.sudo, b.sudo);
    var files := UnionInto(a.files, b.files);
    c := Primitives(groups, sudo, files);
  }

  method TakeMember(bundle: string, acc: Acc, member: string, r: ResolvedPermission) returns (out: Result<Acc, CatalogError>)
    ensures out == AddMember(bundle, acc, member, r)
  {
    if r.bound != [] { return Err(NestedParamMapping(bundle, member)); }
    var next := FoldRisk(acc, r.risk);
    var prims := JoinInto(acc.prims, Of(r));
    if Conflicting(acc.params, r.params) { return Err(ConflictingParamConstraint(bundle)); }
    next := next.(prims := prims, params := r.params + acc.params);
    if acc.limits.None? { next := next.(limits := r.limits); }
    return Ok(next);
  }

  method TakeBound(bundle: string, acc: Acc, inc: Include, r: ResolvedPermission) returns (out: Result<Acc, CatalogError>)
    ensures out == AddBound(bundle, acc, inc, r)
  {
    if r.bound != [] { return Err(NestedParamMapping(bundle, inc.id)); }
    var next := FoldRisk(acc, r.risk);
    if Deferred(inc) { return Ok(next.(bound := acc.bound + [BoundMember(inc, r)])); }
    var e := ExpandBoundMember(bundle, BoundMember(inc, r), map[], map[]);
    if e.Err? { return Err(e.error); }
    var prims := JoinInto(acc.prims, e.value);
    return Ok(next.(prims := prims));
  }

  lemma {:induction false} FlattenedStays(layers: seq<Layer>, bundle: string, path: seq<string>, members: seq<string>, start: Acc, i: nat)
    requires |path| <= MAX_INCLUDE_DEPTH && i <= |members| && Flattened(layers, bundle, path, members[..i], start).Err?
    ensures Flattened(layers, bundle, path, members, start) == Flattened(layers, bundle, path, members[..i], start)
    decreases |members|
  {
    if i < |members| {
      assert members[..|members| - 1][..i] == members[..i];
      FlattenedStays(layers, bundle, path, members[..|members| - 1], start, i);
    } else {
      assert members[..i] == members;
    }
  }

  lemma {:induction false} WithBoundStays(layers: seq<Layer>, bundle: string, path: seq<string>, incs: seq<Include>, start: Acc, i: nat)
    requires |path| <= MAX_INCLUDE_DEPTH && i <= |incs| && WithBound(layers, bundle, path, incs[..i], start).Err?
    ensures WithBound(layers, bundle, path, incs, start) == WithBound(layers, bundle, path, incs[..i], start)
    decreases |incs|
  {
    if i < |incs| {
      assert incs[..|incs| - 1][..i] == incs[..i];
      WithBoundStays(layers, bundle, path, incs[..|incs| - 1], start, i);
    } else {
      assert incs[..i] == incs;
    }
  }

  /** One step of the fold over the members, as the loop takes it. */
  lemma FlattenedNext(layers: seq<Layer>, bundle: string, path: seq<string>, members: seq<string>, start: Acc, i: nat, acc: Acc)
    requires |path| <= MAX_INCLUDE_DEPTH && i < |members| && Flattened(layers, bundle, path, members[..i], start) == Ok(acc)
    ensures var r := Resolution(layers, members[i], path);
            && (r.Err? ==> Flattened(layers, bundle, path, members, start) == Err(r.error))
            && (r.Ok? && AddMember(bundle, acc, members[i], r.value).Err? ==>
                  Flattened(layers, bundle, path, members, start) == AddMember(bundle, acc, members[i], r.value))
            && (r.Ok? && AddMember(bundle, acc, members[i], r.value).Ok? ==>
                  Flattened(layers, bundle, path, members[..i + 1], start) == AddMember(bundle, acc, members[i], r.value))
  {
    hide Resolution, AddMember;
    assert members[..i + 1][..i] == members[..i];
    if Flattened(layers, bundle, path, members[..i + 1], start).Err? {
      FlattenedStays(layers, bundle, path, members, start, i + 1);
    }
  }

  lemma WithBoundNext(layers: seq<Layer>, bundle: string, path: seq<string>, incs: seq<Include>, start: Acc, i: nat, acc: Acc)
    requires |path| <= MAX_INCLUDE_DEPTH && i < |incs| && WithBound(layers, bundle, path, incs[..i], start) == Ok(acc)
    ensures var r := Resolution(layers, incs[i].id, path);
            && (r.Err? ==> WithBound(layers, bundle, path, incs, start) == Err(r.error))
            && (r.Ok? && AddBound(bundle, acc, incs[i], r.value).Err? ==>
                  WithBound(layers, bundle, path, incs, start) == AddBound(bundle, acc, incs[i], r.value))
            && (r.Ok? && AddBound(bundle, acc, incs[i], r.value).Ok? ==>
                  WithBound(layers, bundle, path, incs[..i + 1], start) == AddBound(bundle, acc, incs[i], r.value))
  {
    hide Resolution, AddBound;
    assert incs[..i + 1][..i] == incs[..i];
    if WithBound(layers, bundle, path, incs[..i + 1], start).Err? {
      WithBoundStays(layers, bundle, path, incs, start, i + 1);
    }
  }

  /** Expands the members in order; on success the stack is as it was on entry. */
  method FlattenMembers(layers: seq<Layer>, bundle: string, path: seq<string>, members: seq<string>, start: Acc)
    returns (r: Result<Acc, CatalogError>, stack: seq<string>)
    requires |path| <= MAX_INCLUDE_DEPTH
    ensures r == Flattened(layers, bundle, path, members, start)
    ensures r.Ok? ==> stack == path
    decreases MAX_INCLUDE_DEPTH - |path|, 1
  {
    hide Resolution, AddMember;
    var acc := start;
    stack := path;
    for i := 0 to |members|
      invariant Flattened(layers, bundle, path, members[..i], start) == Ok(acc) && stack == path
    {
      FlattenedNext(layers, bundle, path, members, start, i, acc);
      var m;
      m, stack := ResolveInner(layers, members[i], stack);
      if m.Err? { return Err(m.error), stack; }
      var next := TakeMember(bundle, acc, members[i], m.value);
      if next.Err? { return next, stack; }
      acc := next.value;
    }
    assert members[..|members|] == members;
    r := Ok(acc);
  }

  method ExpandBindings(layers: seq<Layer>, bundle: string, path: seq<string>, incs: seq<Include>, start: Acc)
    returns (r: Result<Acc, CatalogError>, stack: seq<string>)
    requires |path| <= MAX_INCLUDE_DEPTH
    ensures r == WithBound(layers, bundle, path, incs, start)
    ensures r.Ok? ==> stack == path
    decreases MAX_INCLUDE_DEPTH - |path|, 1
  {
    hide Resolution, AddBound;
    var acc := start;
    stack := path;
    for i := 0 to |incs|
      invariant WithBound(layers, bundle, path, incs[..i], start) == Ok(acc) && stack == path
    {
      WithBoundNext(layers, bundle, path, incs, start, i, acc);
      var m;
      m, stack := ResolveInner(layers, incs[i].id, stack);
      if m.Err? { return Err(m.error), stack; }
      var next := TakeBound(bundle, acc, incs[i], m.value);
      if next.Err? { return next, stack; }
      acc := next.value;
    }
    assert incs[..|incs|] == incs;
    r := Ok(acc);
  }

  /** `resolve_inner`: pushes the bundle, expands its members, pops it again. */
  method ResolveInner(layers: seq<Layer>, id: string, path: seq<string>)
    returns (r: Result<ResolvedPermission, CatalogError>, stack: seq<string>)
    requires |path| <= MAX_INCLUDE_DEPTH
    ensures r == Resolution(layers, id, path)
    ensures r.Ok? ==> stack == path
    decreases MAX_INCLUDE_DEPTH - |path|, 0
  {
    stack := path;
    if id in stack {
      return Err(Cycle(stack[IndexOf(stack, id)..] + [id])), stack;
    }
    if |stack| >= MAX_INCLUDE_DEPTH {
      return Err(IncludeTooDeep(id, |stack|)), stack;
    }
    var includes, cats := AggregationFor(layers, id);
    if includes == [] && cats == [] {
      r := ResolveLeaf(layers, id);
      return;
    }
    stack := stack + [id];
    var own := ResolveLeaf(layers, id);
    if own.Err? { return own, stack; }
    var table, materialized := MaterializeCategories(layers, cats);
    var bare, incs := SplitIncludes(includes);
    var members := AddNewInto([], bare + materialized);
    var flat;
    flat, stack := FlattenMembers(layers, id, stack, members, Start(own.value));
    if flat.Err? { return Err(flat.error), stack; }
    var all;
    all, stack := ExpandBindings(layers, id, stack, incs, flat.value);
    if all.Err? { return Err(all.error), stack; }
    stack := stack[..|stack| - 1];
    r := Finish(layers, id, own.value, all.value);
  }

  /** `resolve` on a catalog source: reading refuses bad records, then the id is expanded. */
  method ResolvePermission(source: seq<seq<PermissionDef>>, id: string) returns (r: Result<ResolvedPermission, CatalogError>)
    ensures r.Ok? ==> ValidCatalog(source)
    ensures ValidCatalog(source) ==> r == Resolution(source, id, [])
  {
    var layers := ReadChain(source);
    if layers.Err? { return Err(layers.error); }
    var res, s := ResolveInner(layers.value, id, []);
    r := res;
  }
}
