/**
 From the catalog to the role: everything a role gets is a template of the
 catalog with all of its holes filled at once, and no placeholder is left.
 */
module RoleMeaning {
  import opened Outcomes
  import opened Records
  import opened Constraints
  import opened Templates
  import opened CatalogTypes
  import opened CatalogRecords
  import opened Rendering
  import opened Grants
  import opened Leaf
  import opened Expansion
  import opened Facts
  import opened Resolver
  import opened IncludeGraph
  import opened BundleMeaning
  import opened BundleParams
  import opened RoleParams

  // ----- where bound members come from -----

  /** A bound member is the resolution of the permission its edge names. */
  ghost predicate Resolved(layers: seq<Layer>, path: seq<string>, b: BoundMember)
    requires |path| <= MAX_INCLUDE_DEPTH
  {
    Resolution(layers, b.edge.id, path) == Ok(b.member)
  }

  lemma {:induction false} FlattenedBindsNothing(layers: seq<Layer>, bundle: string, path: seq<string>, members: seq<string>, start: Acc)
    requires |path| <= MAX_INCLUDE_DEPTH && Flattened(layers, bundle, path, members, start).Ok?
    ensures Flattened(layers, bundle, path, members, start).value.bound == start.bound
    decreases |members|
  {
    hide Resolution, Conflicting;
    if members != [] { FlattenedBindsNothing(layers, bundle, path, members[..|members| - 1], start); }
  }

  lemma {:induction false} BoundAreResolved(layers: seq<Layer>, bundle: string, path: seq<string>, incs: seq<Include>, start: Acc)
    requires |path| <= MAX_INCLUDE_DEPTH && WithBound(layers, bundle, path, incs, start).Ok? && start.bound == []
    ensures forall b :: b in WithBound(layers, bundle, path, incs, start).value.bound ==> Resolved(layers, path, b)
    decreases |incs|
  {
    hide Resolution, Expanded, Deferred;
    if incs != [] { BoundAreResolved(layers, bundle, path, incs[..|incs| - 1], start); }
  }

  lemma BoundMemberIsResolved(layers: seq<Layer>, id: string, path: seq<string>, b: BoundMember)
    requires |path| <= MAX_INCLUDE_DEPTH && Resolution(layers, id, path).Ok? && b in Resolution(layers, id, path).value.bound
    ensures |path| < MAX_INCLUDE_DEPTH && Resolved(layers, path + [id], b)
  {
    hide Resolution, Flattened, WithBound, LeafOf, Members, Bindings, IsLeaf, Resolved;
    if IsLeaf(layers, id) {
      LeafResolves(layers, id, path);
      LeafBindsNothing(layers, id);
    } else {
      Anatomy(layers, id, path);
      var start := Start(LeafOf(layers, id).value);
      FlattenedBindsNothing(layers, id, path + [id], Members(layers, id), start);
      BoundAreResolved(layers, id, path + [id], Bindings(layers, id), Flattened(layers, id, path + [id], Members(layers, id), start).value);
    }
  }

  lemma LeafBindsNothing(layers: seq<Layer>, id: string)
    requires LeafOf(layers, id).Ok?
    ensures LeafOf(layers, id).value.bound == []
  {
  }

  // ----- one fact -----

  /** A covered template, rendered: filled at once, and nothing left to fill. */
  lemma RenderedIsFilled(owner: string, t: string, params: Params, rules: Rules, i: nat)
    requires Rendered(owner, t, params, rules).Ok? && Covered(t, rules) && PlainNames(rules) && i < Width(Names(t), params)
    ensures Instance(t, params, i) == Fill(t, Env(Names(t), params, i)) && Placeholders(Instance(t, params, i)) == []
  {
    hide Fill, Env, Supplied, FilledSafely;
    BraceFreeIsClashFree(t, params);
    RenderMeaning(owner, t, params, rules);
    assert Rendered(owner, t, params, rules).value[i] == Instance(t, params, i);
  }

  /** `f` is the fact `f0` with its template filled by the i-th values of `params`. */
  ghost predicate FilledFact(f0: Fact, params: Params, i: nat, f: Fact) {
    f == Moved(f0, Fill(TemplateOf(f0), Env(Names(TemplateOf(f0)), params, i)))
  }

  ghost predicate OwnFilled(r: ResolvedPermission, params: Params, f: Fact) {
    exists f0, i: nat :: Granted(Of(r), f0) && i < CopiesOf(f0, params) && FilledFact(f0, params, i, f)
  }

  ghost predicate MemberFilled(r: ResolvedPermission, params: Params, f: Fact, j: nat) {
    && j < |r.bound| && Fanned(r.id, r.bound[j].edge.bindings, params, r.params).Ok?
    && exists f0, k :: 0 <= k < |Fanned(r.id, r.bound[j].edge.bindings, params, r.params).value| && Granted(Of(r.bound[j].member), f0)
                       && FilledFact(f0, Fanned(r.id, r.bound[j].edge.bindings, params, r.params).value[k], 0, f)
  }

  lemma OwnFactIsFilled(r: ResolvedPermission, params: Params, f: Fact)
    requires ForRole(r, params).Ok? && IsCopy(Of(r), params, f) && Closed(Of(r), r.params) && PlainNames(r.params)
    ensures OwnFilled(r, params, f) && Placeholders(TemplateOf(f)) == []
  {
    hide Granted, Substituted, WithMembers, Rendered, OneDimension, ExpansionNames, Fill, Env, Instance, Placeholders, PlainNames, Width;
    var f0, i: nat :| Granted(Of(r), f0) && i < CopiesOf(f0, params) && f == FactAt(f0, params, i);
    GrantedRenders(r.id, Of(r), params, r.params, f0);
    RenderedIsFilled(r.id, TemplateOf(f0), params, r.params, i);
    MovedTemplate(f0, Instance(TemplateOf(f0), params, i));
    assert FilledFact(f0, params, i, f);
  }

  lemma MovedTemplate(f: Fact, to: string)
    ensures TemplateOf(Moved(f, to)) == to
  {
  }

  lemma MemberFactIsFilled(r: ResolvedPermission, params: Params, f: Fact, j: nat)
    requires ForRole(r, params).Ok? && j < |r.bound| && FromMember(r.id, r.bound[j], params, r.params, f)
    requires Closed(Of(r.bound[j].member), r.bound[j].member.params) && PlainNames(r.bound[j].member.params)
    ensures MemberFilled(r, params, f, j) && Placeholders(TemplateOf(f)) == []
  {
    hide Granted, Substituted, WithMembers, Rendered, OneDimension, ExpansionNames, Fill, Env, Instance, Placeholders, PlainNames, Width, Expanded, Bound, Narrowed, Fanned;
    var b := r.bound[j];
    var copies := Fanned(r.id, b.edge.bindings, params, r.params).value;
    var own := Substituted(r.id, Of(r), params, r.params).value;
    MemberExpands(r.id, r.bound, params, r.params, own, j);
    var k :| 0 <= k < |copies| && FilledBy(Of(b.member), copies[k], f);
    var f0 :| Granted(Of(b.member), f0) && f == FactAt(f0, copies[k], 0);
    ExpandedRenders(r.id, b, params, r.params, k, f0);
    CopyIsScalar(r.id, b.edge.bindings, params, r.params, k);
    ScalarWidth(Names(TemplateOf(f0)), copies[k]);
    RenderedIsFilled(b.edge.id, TemplateOf(f0), copies[k], b.member.params, 0);
    MovedTemplate(f0, Instance(TemplateOf(f0), copies[k], 0));
    assert FilledFact(f0, copies[k], 0, f);
  }

  lemma CopyIsScalar(bundle: string, bs: seq<Binding>, params: Params, rules: Rules, k: nat)
    requires Fanned(bundle, bs, params, rules).Ok? && k < |Fanned(bundle, bs, params, rules).value|
    ensures forall n :: n in Fanned(bundle, bs, params, rules).value[k] ==> Fanned(bundle, bs, params, rules).value[k][n].Scalar?
  {
    hide Bound, Narrowed, FanOut;
    EachAre(FanOut(bs, params), BoundAt(bundle, bs, params, rules));
    assert BoundAt(bundle, bs, params, rules)(k) == Ok(Fanned(bundle, bs, params, rules).value[k]);
    BoundIsScalar(bundle, bs, Narrowed(bs, params, k), rules);
  }

  /**
   In a catalog whose placeholder names are brace free, everything a role is granted comes from one fact of
   the resolved permission or of one of its bound members, its template filled in a single step by values
   the constraints accepted, and no placeholder is left in it.
   */
  lemma RoleGetsFilledTemplates(layers: seq<Layer>, id: string, params: Params, f: Fact)
    requires ValidCatalog(layers) && PlainCatalog(layers) && Resolution(layers, id, []).Ok?
    requires ForRole(Resolution(layers, id, []).value, params).Ok?
    requires Granted(ForRole(Resolution(layers, id, []).value, params).value, f)
    ensures Placeholders(TemplateOf(f)) == []
    ensures var r := Resolution(layers, id, []).value;
            OwnFilled(r, params, f) || exists j: nat :: MemberFilled(r, params, f, j)
  {
    hide Resolution, ForRole, IsCopy, FromMember, OwnFilled, MemberFilled, Closed, PlainNames, Placeholders, ValidCatalog, PlainCatalog, Granted, Safe, Sound;
    var r := Resolution(layers, id, []).value;
    RoleGetsFilledFacts(r, params, f);
    if IsCopy(Of(r), params, f) {
      ConstraintClosure(layers, id, []);
      OwnFactIsFilled(r, params, f);
    } else {
      var j :| 0 <= j < |r.bound| && FromMember(r.id, r.bound[j], params, r.params, f);
      BoundMemberIsResolved(layers, id, [], r.bound[j]);
      ConstraintClosure(layers, r.bound[j].edge.id, [] + [id]);
      MemberFactIsFilled(r, params, f, j);
    }
  }
}
