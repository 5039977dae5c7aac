/** The parameters of a resolved bundle and the constraints that guard them (src/catalog.rs). */
module BundleParams {
  import opened Outcomes
  import opened Records
  import opened Constraints
  import opened Templates
  import opened CatalogTypes
  import opened CatalogRecords
  import opened Rendering
  import opened Grants
  import opened Leaf
  import opened Expansion
  import opened Facts
  import opened Resolver
  import opened IncludeGraph
  import opened BundleMeaning

  predicate Covered(t: string, rules: Rules) { forall n :: n in Placeholders(t) ==> n in rules }

  /** Every placeholder left in the primitives has a constraint. */
  ghost predicate Closed(p: Primitives, rules: Rules) { forall f :: Granted(p, f) ==> Covered(TemplateOf(f), rules) }

  /** Placeholder names without braces, the documented form. */
  predicate PlainNames(rules: Rules) { forall n :: n in rules ==> '{' !in n }

  predicate PlainCatalog(layers: seq<Layer>) {
    forall i :: 0 <= i < |layers| ==> forall d :: d in layers[i] ==> PlainNames(d.params)
  }

  // ----- a leaf -----

  predicate StateClosed(st: LeafState) {
    && (forall t :: t in st.groups ==> Covered(t, st.params))
    && (forall t :: t in st.sudo ==> Covered(t, st.params))
    && (forall g :: g in st.files ==> Covered(g.path, st.params))
  }

  lemma TemplateIsCovered(d: PermissionDef, t: string)
    requires Constrained(d) && t in TemplatesOf(d)
    ensures Covered(t, d.params)
  {
    hide TemplatesOf;
    var i :| 0 <= i < |TemplatesOf(d)| && TemplatesOf(d)[i] == t;
    forall n | n in Placeholders(t) ensures n in d.params {
      assert n in AllPlaceholders(TemplatesOf(d));
    }
  }

  lemma RecordIsClosed(d: PermissionDef)
    requires Constrained(d)
    ensures forall t :: t in d.groups.values ==> Covered(t, d.params)
    ensures forall t :: t in d.sudo.values ==> Covered(t, d.params)
    ensures forall g :: g in d.files ==> Covered(g.path, d.params)
  {
    hide Constrained, Covered;
    forall t | t in d.groups.values ensures Covered(t, d.params) { TemplateIsCovered(d, t); }
    forall t | t in d.sudo.values ensures Covered(t, d.params) { TemplateIsCovered(d, t); }
    forall g | g in d.files ensures Covered(g.path, d.params) {
      var i :| 0 <= i < |d.files| && d.files[i] == g;
      assert PathsOf(d.files)[i] == g.path;
      assert g.path in PathsOf(d.files);
      assert g.path in TemplatesOf(d);
      TemplateIsCovered(d, g.path);
    }
  }

  lemma CoveredByMore(t: string, a: Rules, b: Rules)
    requires Covered(t, a) && forall n :: n in a ==> n in b
    ensures Covered(t, b)
  {
  }

  lemma ApplyKeepsClosed(st: LeafState, d: PermissionDef)
    requires StateClosed(st) && Constrained(d) && PlainNames(st.params) && PlainNames(d.params)
    ensures StateClosed(ApplyLayer(st, d)) && PlainNames(ApplyLayer(st, d).params)
  {
    hide Constrained, Covered;
    RecordIsClosed(d);
    var after := ApplyLayer(st, d);
    forall t | Covered(t, d.params) ensures Covered(t, after.params) { CoveredByMore(t, d.params, after.params); }
    if !d.replace {
      forall t | Covered(t, st.params) ensures Covered(t, after.params) { CoveredByMore(t, st.params, after.params); }
    }
  }

  lemma {:induction false} FoldIsClosed(defs: seq<PermissionDef>)
    requires forall d :: d in defs ==> Constrained(d) && PlainNames(d.params)
    ensures StateClosed(Fold(defs)) && PlainNames(Fold(defs).params)
    decreases |defs|
  {
    hide Constrained, ApplyLayer, Covered;
    if defs != [] {
      FoldIsClosed(defs[..|defs| - 1]);
      ApplyKeepsClosed(Fold(defs[..|defs| - 1]), defs[|defs| - 1]);
    }
  }

  lemma LeafIsClosed(layers: seq<Layer>, id: string)
    requires ValidCatalog(layers) && PlainCatalog(layers) && LeafOf(layers, id).Ok?
    ensures Closed(Of(LeafOf(layers, id).value), LeafOf(layers, id).value.params) && PlainNames(LeafOf(layers, id).value.params)
  {
    var defs := Stated(layers, id);
    forall d | d in defs ensures Constrained(d) && PlainNames(d.params) {
      var i :| 0 <= i < |layers| && d in layers[i];
      assert ValidLayer(layers[i]);
    }
    FoldIsClosed(defs);
    StateGrantsClosed(id, Fold(defs));
  }

  lemma StateGrantsClosed(id: string, st: LeafState)
    requires StateClosed(st)
    ensures Closed(Of(Finished(id, st)), st.params)
  {
    hide Covered;
    var p := Of(Finished(id, st));
    forall f | Granted(p, f) ensures Covered(TemplateOf(f), st.params) {
      match f
      case InGroup(_) =>
      case MayRun(c) =>
        var i :| 0 <= i < |p.sudo| && p.sudo[i] == c;
        assert st.sudo[i] in st.sudo;
      case OnFile(g) =>
        UnionSays([], ResolveAll(st.files), g);
        var i :| 0 <= i < |ResolveAll(st.files)| && Grants.Says(ResolveAll(st.files)[i], g);
        assert st.files[i] in st.files;
    }
  }

  // ----- a bundle -----

  lemma {:induction false} FlattenedClosed(layers: seq<Layer>, bundle: string, path: seq<string>, members: seq<string>, start: Acc)
    requires |path| <= MAX_INCLUDE_DEPTH && ValidCatalog(layers) && PlainCatalog(layers)
    requires Flattened(layers, bundle, path, members, start).Ok?
    requires Closed(start.prims, start.params) && PlainNames(start.params)
    ensures var acc := Flattened(layers, bundle, path, members, start).value;
            Closed(acc.prims, acc.params) && PlainNames(acc.params)
    decreases MAX_INCLUDE_DEPTH - |path|, 1 + |members|
  {
    hide Resolution, Closed, Conflicting, ValidCatalog, PlainCatalog;
    if members != [] {
      var n := |members| - 1;
      FlattenedClosed(layers, bundle, path, members[..n], start);
      MemberResolves(layers, bundle, path, members, start, n);
      ConstraintClosure(layers, members[n], path);
      var acc, r := Flattened(layers, bundle, path, members[..n], start).value, Resolution(layers, members[n], path).value;
      JoinIsClosed(acc.prims, acc.params, Of(r), r.params);
    }
  }

  lemma JoinIsClosed(a: Primitives, ra: Rules, b: Primitives, rb: Rules)
    requires Closed(a, ra) && Closed(b, rb)
    ensures Closed(Joined(a, b), rb + ra)
  {
    hide Granted, Covered;
    forall f | Granted(Joined(a, b), f) ensures Covered(TemplateOf(f), rb + ra) {
      JoinedGrants(a, b, f);
      if Granted(a, f) {
        CoveredByMore(TemplateOf(f), ra, rb + ra);
      } else {
        CoveredByMore(TemplateOf(f), rb, rb + ra);
      }
    }
  }

  /** A literally bound member leaves no placeholder behind. */
  lemma LiteralLeavesNothing(bundle: string, b: BoundMember, f: Fact)
    requires Expanded(bundle, b, map[], map[]).Ok? && Granted(Expanded(bundle, b, map[], map[]).value, f)
    requires forall i :: 0 <= i < |b.edge.bindings| ==> !HasPlaceholder(b.edge.bindings[i].template)
    requires Closed(Of(b.member), b.member.params) && PlainNames(b.member.params)
    ensures Placeholders(TemplateOf(f)) == []
  {
    hide Expanded, Granted, Literal, HasPlaceholder, Instance, Rendered, Fanned, Parse, HoleNames;
    LiteralExpansion(bundle, b, f);
    var env := Literal(b.edge.bindings);
    var f0 :| Granted(Of(b.member), f0) && f == FactAt(f0, env, 0);
    ExpandedRenders(bundle, b, map[], map[], 0, f0);
    var t := TemplateOf(f0);
    assert Covered(t, b.member.params);
    BraceFreeIsClashFree(t, env);
    RenderMeaning(b.edge.id, t, env, b.member.params);
    FirstCopy(b.edge.id, t, env, b.member.params);
    BoundIsScalar(bundle, b.edge.bindings, map[], map[]) by { LiteralBinds(bundle, b.edge.bindings, map[], map[]); }
    LiteralBinds(bundle, b.edge.bindings, map[], map[]);
    ScalarWidth(Names(t), env);
  }

  lemma FirstCopy(owner: string, t: string, params: Params, rules: Rules)
    requires Rendered(owner, t, params, rules).Ok?
    ensures |Rendered(owner, t, params, rules).value| == Width(Names(t), params)
    ensures Width(Names(t), params) > 0 ==> Rendered(owner, t, params, rules).value[0] == Instance(t, params, 0)
  {
  }

  lemma {:induction false} WithBoundClosed(layers: seq<Layer>, bundle: string, path: seq<string>, incs: seq<Include>, start: Acc)
    requires |path| <= MAX_INCLUDE_DEPTH && ValidCatalog(layers) && PlainCatalog(layers)
    requires WithBound(layers, bundle, path, incs, start).Ok?
    requires Closed(start.prims, start.params) && PlainNames(start.params)
    ensures var acc := WithBound(layers, bundle, path, incs, start).value;
            Closed(acc.prims, acc.params) && acc.params == start.params
    decreases MAX_INCLUDE_DEPTH - |path|, 1 + |incs|
  {
    hide Resolution, Closed, Expanded, HasPlaceholder, ValidCatalog, PlainCatalog;
    if incs != [] {
      var n := |incs| - 1;
      WithBoundClosed(layers, bundle, path, incs[..n], start);
      BindingResolves(layers, bundle, path, incs, start, n);
      ConstraintClosure(layers, incs[n].id, path);
      var acc, b := WithBound(layers, bundle, path, incs[..n], start).value, BoundMember(incs[n], Resolution(layers, incs[n].id, path).value);
      if !Deferred(incs[n]) {
        LiteralIsClosed(bundle, b, acc.params);
        JoinIsClosed(acc.prims, acc.params, Expanded(bundle, b, map[], map[]).value, acc.params);
        assert acc.params + acc.params == acc.params;
      }
    }
  }

  lemma LiteralIsClosed(bundle: string, b: BoundMember, rules: Rules)
    requires Expanded(bundle, b, map[], map[]).Ok?
    requires forall i :: 0 <= i < |b.edge.bindings| ==> !HasPlaceholder(b.edge.bindings[i].template)
    requires Closed(Of(b.member), b.member.params) && PlainNames(b.member.params)
    ensures Closed(Expanded(bundle, b, map[], map[]).value, rules)
  {
    hide Expanded, Granted, HasPlaceholder, Placeholders;
    forall f | Granted(Expanded(bundle, b, map[], map[]).value, f) ensures Covered(TemplateOf(f), rules) {
      LiteralLeavesNothing(bundle, b, f);
    }
  }

  /** After every successful resolve, each placeholder still in the groups, commands or paths has a constraint. */
  lemma {:induction false} ConstraintClosure(layers: seq<Layer>, id: string, path: seq<string>)
    requires |path| <= MAX_INCLUDE_DEPTH && ValidCatalog(layers) && PlainCatalog(layers) && Resolution(layers, id, path).Ok?
    ensures var r := Resolution(layers, id, path).value;
            Closed(Of(r), r.params) && PlainNames(r.params)
    decreases MAX_INCLUDE_DEPTH - |path|, 0
  {
    hide Resolution, Flattened, WithBound, LeafOf, Members, Bindings, IsLeaf, Closed, ValidCatalog, PlainCatalog;
    if IsLeaf(layers, id) {
      LeafResolves(layers, id, path);
      LeafIsClosed(layers, id);
    } else {
      Anatomy(layers, id, path);
      LeafIsClosed(layers, id);
      var start := Start(LeafOf(layers, id).value);
      FlattenedClosed(layers, id, path + [id], Members(layers, id), start);
      WithBoundClosed(layers, id, path + [id], Bindings(layers, id), Flattened(layers, id, path + [id], Members(layers, id), start).value);
    }
  }

  // ----- merging -----

  lemma {:induction false} FlattenedMerges(layers: seq<Layer>, bundle: string, path: seq<string>, members: seq<string>, start: Acc, name: string)
    requires |path| <= MAX_INCLUDE_DEPTH && Flattened(layers, bundle, path, members, start).Ok?
    ensures var acc := Flattened(layers, bundle, path, members, start).value;
            && (name in start.params ==> name in acc.params && acc.params[name] == start.params[name])
            && (forall i :: 0 <= i < |members| && Resolution(layers, members[i], path).Ok? && name in Resolution(layers, members[i], path).value.params ==>
                  name in acc.params && Normalized(acc.params[name]) == Normalized(Resolution(layers, members[i], path).value.params[name]))
            && (name in acc.params && name !in start.params ==>
                  exists i :: 0 <= i < |members| && Resolution(layers, members[i], path).Ok? && name in Resolution(layers, members[i], path).value.params)
    decreases |members|
  {
    hide Resolution, Normalized;
    if members != [] {
      var n := |members| - 1;
      FlattenedMerges(layers, bundle, path, members[..n], start, name);
      MemberResolves(layers, bundle, path, members, start, n);
      assert forall i :: 0 <= i < n ==> members[..n][i] == members[i];
    }
  }

  lemma {:induction false} WithBoundKeepsParams(layers: seq<Layer>, bundle: string, path: seq<string>, incs: seq<Include>, start: Acc)
    requires |path| <= MAX_INCLUDE_DEPTH && WithBound(layers, bundle, path, incs, start).Ok?
    ensures WithBound(layers, bundle, path, incs, start).value.params == start.params
    decreases |incs|
  {
    hide Resolution, Expanded, Deferred;
    if incs != [] { WithBoundKeepsParams(layers, bundle, path, incs[..|incs| - 1], start); }
  }

  /** One level: the bundle's constraint for a name has the meaning of each flattened member's. */
  lemma MemberAgrees(layers: seq<Layer>, id: string, path: seq<string>, m: string, name: string)
    requires |path| < MAX_INCLUDE_DEPTH && Resolution(layers, id, path).Ok? && m in Members(layers, id)
    requires Resolution(layers, m, path + [id]).Ok? && name in Resolution(layers, m, path + [id]).value.params
    ensures var r := Resolution(layers, id, path).value;
            name in r.params && Normalized(r.params[name]) == Normalized(Resolution(layers, m, path + [id]).value.params[name])
  {
    hide Resolution, Flattened, WithBound, LeafOf, Members, Bindings, IsLeaf, Normalized;
    if IsLeaf(layers, id) {
      EdgeIs(layers, id, m);
      LeafHasNoEdge(layers, id, m);
    }
    Anatomy(layers, id, path);
    var start := Start(LeafOf(layers, id).value);
    FlattenedMerges(layers, id, path + [id], Members(layers, id), start, name);
    WithBoundKeepsParams(layers, id, path + [id], Bindings(layers, id), Flattened(layers, id, path + [id], Members(layers, id), start).value);
    var i :| 0 <= i < |Members(layers, id)| && Members(layers, id)[i] == m;
  }

  /** A walk that only follows flattened members. */
  ghost predicate FlatWalk(layers: seq<Layer>, w: seq<string>) {
    forall i :: 0 <= i < |w| - 1 ==> Flattens(layers, w[i], w[i + 1])
  }

  /**
   However deep a flattened member sits, the bundle's merged constraint gives every value the verdict
   that member's own constraint gives it.
   */
  lemma {:induction false} MergeIsSound(layers: seq<Layer>, path: seq<string>, w: seq<string>, name: string, value: string)
    requires |path| < MAX_INCLUDE_DEPTH && w != [] && FlatWalk(layers, w) && Resolution(layers, w[0], path).Ok?
    requires Resolution(layers, w[|w| - 1], []).Ok? && name in Resolution(layers, w[|w| - 1], []).value.params
    ensures name in Resolution(layers, w[0], path).value.params
    ensures ValueDefect(Resolution(layers, w[0], path).value.params[name], value)
         == ValueDefect(Resolution(layers, w[|w| - 1], []).value.params[name], value)
    decreases |w|
  {
    hide Resolution, Members, Normalized, ValueDefect;
    if |w| == 1 {
      PathShrinks(layers, w[0], path, []);
    } else {
      assert Flattens(layers, w[0], w[0 + 1]);
      MembersExactly(layers, w[0], w[1]);
      assert Edge(layers, w[0], w[1]);
      EdgeResolves(layers, w[0], path, w[1]);
      RootResolves(layers, w[1], path + [w[0]]);
      FlatTail(layers, w);
      MergeIsSound(layers, path + [w[0]], w[1..], name, value);
      MemberAgrees(layers, w[0], path, w[1], name);
      NormalFormsAgree(Resolution(layers, w[0], path).value.params[name], Resolution(layers, w[1], path + [w[0]]).value.params[name], value);
    }
  }

  lemma FlatTail(layers: seq<Layer>, w: seq<string>)
    requires |w| > 1 && FlatWalk(layers, w)
    ensures FlatWalk(layers, w[1..])
  {
    hide Members;
    forall i | 0 <= i < |w[1..]| - 1
      ensures Flattens(layers, w[1..][i], w[1..][i + 1])
    {
      assert Flattens(layers, w[i + 1], w[i + 1 + 1]);
    }
  }
}
