/** Resolving a permission for a role that supplies its parameters (src/catalog.rs). */
module RoleParams {
  import opened Outcomes
  import opened Records
  import opened Constraints
  import opened Templates
  import opened CatalogTypes
  import opened CatalogRecords
  import opened Rendering
  import opened Grants
  import opened Leaf
  import opened Expansion
  import opened Facts
  import opened Resolver
  import opened IncludeGraph
  import opened BundleMeaning

  // ----- one list dimension -----

  function CommandLines(sudo: seq<SudoCommand>): seq<string> { seq(|sudo|, i requires 0 <= i < |sudo| => sudo[i].command) }

  function GrantPaths(files: seq<ResolvedGrant>): seq<string> { seq(|files|, i requires 0 <= i < |files| => files[i].path) }

  function BoundNames(bound: seq<BoundMember>): seq<string>
    decreases |bound|
  {
    if bound == [] then [] else BoundNames(bound[..|bound| - 1]) + BindingNames(bound[|bound| - 1].edge.bindings)
  }

  /** Every parameter an expansion consumes: its own templates, then its bindings. */
  function ExpansionNames(r: ResolvedPermission): seq<string> {
    AllPlaceholders(r.groups) + AllPlaceholders(CommandLines(r.sudo)) + AllPlaceholders(GrantPaths(r.files)) + BoundNames(r.bound)
  }

  predicate IsList(params: Params, name: string) { name in params && params[name].Items? }

  predicate OneDimension(names: seq<string>, params: Params) {
    forall a, b :: a in names && b in names && IsList(params, a) && IsList(params, b) ==> a == b
  }

  /** `enforce_single_expansion_list`: refuses a second list once bindings are in play. */
  method EnforceSingleExpansionList(r: ResolvedPermission, params: Params) returns (ok: Result<(), CatalogError>)
    ensures ok.Ok? <==> r.bound == [] || OneDimension(ExpansionNames(r), params)
    ensures ok.Err? ==> ok.error == MultipleExpansionLists(r.id)
  {
    hide AllPlaceholders, BoundNames;
    if r.bound == [] { return Ok(()); }
    var names := ExpansionNames(r);
    var seen: Option<string> := None;
    for i := 0 to |names|
      invariant seen.Some? ==> seen.value in names[..i] && IsList(params, seen.value)
      invariant forall k :: 0 <= k < i && IsList(params, names[k]) ==> seen == Some(names[k])
    {
      if IsList(params, names[i]) {
        if seen.Some? && seen.value != names[i] {
          assert seen.value in names && names[i] in names;
          return Err(MultipleExpansionLists(r.id));
        }
        seen := Some(names[i]);
      }
    }
    return Ok(());
  }

  // ----- the resolve -----

  /** The bound members, expanded and unioned in order. */
  function WithMembers(bundle: string, bound: seq<BoundMember>, params: Params, rules: Rules, start: Primitives): Result<Primitives, CatalogError>
    decreases |bound|
  {
    if bound == [] then Ok(start) else
    var acc := WithMembers(bundle, bound[..|bound| - 1], params, rules, start);
    if acc.Err? then acc else
    var e := Expanded(bundle, bound[|bound| - 1], params, rules);
    if e.Err? then e else Ok(Joined(acc.value, e.value))
  }

  /** Own templates under the bundle's rules first, then each bound member. */
  function ForRole(r: ResolvedPermission, params: Params): Result<Primitives, CatalogError> {
    if r.bound != [] && !OneDimension(ExpansionNames(r), params) then Err(MultipleExpansionLists(r.id)) else
    var own := Substituted(r.id, Of(r), params, r.params);
    if own.Err? then own else WithMembers(r.id, r.bound, params, r.params, own.value)
  }

  lemma {:induction false} WithMembersStays(bundle: string, bound: seq<BoundMember>, params: Params, rules: Rules, start: Primitives, i: nat)
    requires i <= |bound| && WithMembers(bundle, bound[..i], params, rules, start).Err?
    ensures WithMembers(bundle, bound, params, rules, start) == WithMembers(bundle, bound[..i], params, rules, start)
    decreases |bound|
  {
    hide Expanded;
    if i < |bound| {
      assert bound[..|bound| - 1][..i] == bound[..i];
      WithMembersStays(bundle, bound[..|bound| - 1], params, rules, start, i);
    } else {
      assert bound[..i] == bound;
    }
  }

  method ExpandMembers(bundle: string, bound: seq<BoundMember>, params: Params, rules: Rules, start: Primitives)
    returns (r: Result<Primitives, CatalogError>)
    ensures r == WithMembers(bundle, bound, params, rules, start)
  {
    hide Expanded, Joined;
    var acc := start;
    for i := 0 to |bound|
      invariant WithMembers(bundle, bound[..i], params, rules, start) == Ok(acc)
    {
      assert bound[..i + 1][..i] == bound[..i];
      var e := ExpandBoundMember(bundle, bound[i], params, rules);
      if e.Err? {
        WithMembersStays(bundle, bound, params, rules, start, i + 1);
        return e;
      }
      acc := JoinInto(acc, e.value);
    }
    assert bound[..|bound|] == bound;
    return Ok(acc);
  }

  /** `resolve_with_params`: resolve, then fill what the role supplied. */
  method ResolveWithParams(source: seq<seq<PermissionDef>>, id: string, params: Params) returns (r: Result<ResolvedPermission, CatalogError>)
    ensures r.Ok? ==> ValidCatalog(source) && Resolution(source, id, []).Ok?
    ensures r.Ok? ==> ForRole(Resolution(source, id, []).value, params) == Ok(Of(r.value)) && r.value.bound == []
    ensures r.Err? && ValidCatalog(source) && Resolution(source, id, []).Ok? ==> ForRole(Resolution(source, id, []).value, params) == Err(r.error)
  {
    hide Resolution, Substituted, WithMembers, ExpansionNames, OneDimension, ValidCatalog;
    var res := ResolvePermission(source, id);
    if res.Err? { return res; }
    var p := res.value;
    var one := EnforceSingleExpansionList(p, params);
    if one.Err? { return Err(one.error); }
    var own := SubstituteAllLists(p.id, Of(p), params, p.params);
    if own.Err? { return Err(own.error); }
    var all := ExpandMembers(p.id, p.bound, params, p.params, own.value);
    if all.Err? { return Err(all.error); }
    return Ok(p.(groups := all.value.groups, sudo := all.value.sudo, files := all.value.files, bound := []));
  }

  // ----- what the role gets -----

  /** `f` comes from a bound member filled by one rendering of its bindings. */
  ghost predicate FromMember(bundle: string, b: BoundMember, params: Params, rules: Rules, f: Fact) {
    && Fanned(bundle, b.edge.bindings, params, rules).Ok?
    && exists k :: 0 <= k < |Fanned(bundle, b.edge.bindings, params, rules).value|
                   && FilledBy(Of(b.member), Fanned(bundle, b.edge.bindings, params, rules).value[k], f)
  }

  lemma {:induction false} WithMembersGrants(bundle: string, bound: seq<BoundMember>, params: Params, rules: Rules, start: Primitives, f: Fact)
    requires WithMembers(bundle, bound, params, rules, start).Ok?
    ensures Granted(WithMembers(bundle, bound, params, rules, start).value, f)
       <==> Granted(start, f) || exists j :: 0 <= j < |bound| && FromMember(bundle, bound[j], params, rules, f)
    decreases |bound|
  {
    hide Expanded, Granted, Fanned, FilledBy;
    if bound != [] {
      var n := |bound| - 1;
      WithMembersGrants(bundle, bound[..n], params, rules, start, f);
      JoinedGrants(WithMembers(bundle, bound[..n], params, rules, start).value, Expanded(bundle, bound[n], params, rules).value, f);
      ExpandedGrants(bundle, bound[n], params, rules, f);
      assert forall j :: 0 <= j < n ==> bound[..n][j] == bound[j];
    }
  }

  lemma {:induction false} WithMembersSafe(bundle: string, bound: seq<BoundMember>, params: Params, rules: Rules, start: Primitives, f: Fact)
    requires WithMembers(bundle, bound, params, rules, start).Ok?
    requires forall g :: Granted(start, g) ==> Safe(start, g)
    requires Sound(start.files)
    ensures Granted(WithMembers(bundle, bound, params, rules, start).value, f) ==> Safe(WithMembers(bundle, bound, params, rules, start).value, f)
    ensures Sound(WithMembers(bundle, bound, params, rules, start).value.files)
    decreases |bound|
  {
    hide Expanded, Granted, Safe, UniquePaths, WellShaped;
    if bound != [] {
      var n := |bound| - 1;
      WithMembersSafe(bundle, bound[..n], params, rules, start, f);
      var acc, e := WithMembers(bundle, bound[..n], params, rules, start).value, Expanded(bundle, bound[n], params, rules).value;
      var all := Joined(acc, e);
      forall g ensures Granted(all, g) <==> Granted(acc, g) || Granted(e, g) { JoinedGrants(acc, e, g); }
      ExpandedGrants(bundle, bound[n], params, rules, f);
      if Granted(acc, f) { SafeStays(acc, all, f); }
      if Granted(e, f) { SafeStays(e, all, f); }
      ExpandedShaped(bundle, bound[n], params, rules);
      UnionKeeps(acc.files, e.files);
    }
  }

  /**
   The role gets exactly the copies of the bundle's own facts and of each bound member's, nothing
   else, and every one of them passes the gate of its kind.
   */
  lemma RoleGetsFilledFacts(r: ResolvedPermission, params: Params, f: Fact)
    requires ForRole(r, params).Ok?
    ensures Granted(ForRole(r, params).value, f)
       <==> IsCopy(Of(r), params, f) || exists j :: 0 <= j < |r.bound| && FromMember(r.id, r.bound[j], params, r.params, f)
    ensures Granted(ForRole(r, params).value, f) ==> Safe(ForRole(r, params).value, f)
    ensures Sound(ForRole(r, params).value.files)
  {
    hide Granted, Safe, Substituted, WithMembers, IsCopy, FromMember, UniquePaths, WellShaped, OneDimension, ExpansionNames;
    var own := Substituted(r.id, Of(r), params, r.params).value;
    forall g ensures Granted(own, g) <==> IsCopy(Of(r), params, g)
             ensures Granted(own, g) ==> Safe(own, g)
             ensures Sound(own.files) {
      SubstitutedGrants(r.id, Of(r), params, r.params, g);
    }
    SubstitutedGrants(r.id, Of(r), params, r.params, InGroup(""));
    WithMembersGrants(r.id, r.bound, params, r.params, own, f);
    WithMembersSafe(r.id, r.bound, params, r.params, own, f);
  }

  // ----- both guards -----

  lemma {:induction false} BindingRenders(bundle: string, bs: seq<Binding>, params: Params, rules: Rules, i: nat)
    requires Bound(bundle, bs, params, rules).Ok? && i < |bs|
    ensures Rendered(bundle, bs[i].template, params, rules).Ok? && |Rendered(bundle, bs[i].template, params, rules).value| == 1
    decreases |bs|
  {
    hide Rendered;
    if i < |bs| - 1 { BindingRenders(bundle, bs[..|bs| - 1], params, rules, i); }
  }

  lemma FilledFromRendered(owner: string, t: string, params: Params, rules: Rules, i: nat)
    requires Rendered(owner, t, params, rules).Ok? && i < |Rendered(owner, t, params, rules).value|
    ensures FilledSafely(t, params, rules, i)
  {
    hide Rendered, FilledSafely, ClashFree;
    RenderMeaning(owner, t, params, rules);
  }

  /** Each own fact is filled with values the bundle's constraints accept. */
  lemma OwnGuard(r: ResolvedPermission, params: Params, f: Fact, i: nat)
    requires ForRole(r, params).Ok? && Granted(Of(r), f) && i < CopiesOf(f, params)
    ensures FilledSafely(TemplateOf(f), params, r.params, i)
  {
    hide Granted, Substituted, WithMembers, Rendered, FilledSafely, OneDimension, ExpansionNames;
    GrantedRenders(r.id, Of(r), params, r.params, f);
    RenderedWidth(r.id, TemplateOf(f), params, r.params);
    FilledFromRendered(r.id, TemplateOf(f), params, r.params, i);
  }

  lemma RenderedWidth(owner: string, t: string, params: Params, rules: Rules)
    requires Rendered(owner, t, params, rules).Ok?
    ensures |Rendered(owner, t, params, rules).value| == Width(Names(t), params)
  {
    hide Width, Names, Instance, Defects;
  }

  lemma {:induction false} MemberExpands(bundle: string, bound: seq<BoundMember>, params: Params, rules: Rules, start: Primitives, j: nat)
    requires WithMembers(bundle, bound, params, rules, start).Ok? && j < |bound|
    ensures Expanded(bundle, bound[j], params, rules).Ok?
    decreases |bound|
  {
    hide Expanded, Joined;
    if j < |bound| - 1 { MemberExpands(bundle, bound[..|bound| - 1], params, rules, start, j); }
  }

  /**
   A bound member passes two guards: each value its bindings take from the role was accepted by the
   bundle's constraint, and each value they hand on by the member's own.
   */
  lemma BothGuards(r: ResolvedPermission, params: Params, j: nat, k: nat, i: nat, f: Fact)
    requires ForRole(r, params).Ok? && j < |r.bound|
    ensures var b := r.bound[j];
            && Fanned(r.id, b.edge.bindings, params, r.params).Ok?
            && (k < |Fanned(r.id, b.edge.bindings, params, r.params).value| ==>
                  && (i < |b.edge.bindings| ==> FilledSafely(b.edge.bindings[i].template, Narrowed(b.edge.bindings, params, k), r.params, 0))
                  && (Granted(Of(b.member), f) ==>
                        FilledSafely(TemplateOf(f), Fanned(r.id, b.edge.bindings, params, r.params).value[k], b.member.params, 0)))
  {
    hide Granted, Substituted, WithMembers, Rendered, FilledSafely, OneDimension, ExpansionNames, Expanded, Bound, Narrowed;
    var b := r.bound[j];
    var own := Substituted(r.id, Of(r), params, r.params).value;
    MemberExpands(r.id, r.bound, params, r.params, own, j);
    ExpandedGrants(r.id, b, params, r.params, f);
    var copies := Fanned(r.id, b.edge.bindings, params, r.params).value;
    if k < |copies| {
      EachAre(FanOut(b.edge.bindings, params), BoundAt(r.id, b.edge.bindings, params, r.params));
      assert BoundAt(r.id, b.edge.bindings, params, r.params)(k) == Ok(copies[k]);
      if i < |b.edge.bindings| {
        BindingRenders(r.id, b.edge.bindings, Narrowed(b.edge.bindings, params, k), r.params, i);
        FilledFromRendered(r.id, b.edge.bindings[i].template, Narrowed(b.edge.bindings, params, k), r.params, 0);
      }
      if Granted(Of(b.member), f) {
        ExpandedRenders(r.id, b, params, r.params, k, f);
        BoundIsScalar(r.id, b.edge.bindings, Narrowed(b.edge.bindings, params, k), r.params);
        RenderedWidth(b.edge.id, TemplateOf(f), copies[k], b.member.params);
        ScalarWidth(Names(TemplateOf(f)), copies[k]);
        FilledFromRendered(b.edge.id, TemplateOf(f), copies[k], b.member.params, 0);
      }
    }
  }

  // ----- when bindings are accepted -----

  /** Every binding is supplied with acceptable values and renders to exactly one string. */
  predicate BindsOnce(bs: seq<Binding>, params: Params, rules: Rules) {
    forall i :: 0 <= i < |bs| ==> Supplied(Names(bs[i].template), params, rules) && Width(Names(bs[i].template), params) == 1
  }

  lemma RendersIff(owner: string, t: string, params: Params, rules: Rules)
    ensures Rendered(owner, t, params, rules).Ok? <==> Supplied(Names(t), params, rules)
    ensures Rendered(owner, t, params, rules).Ok? ==> |Rendered(owner, t, params, rules).value| == Width(Names(t), params)
  {
    hide Rendered, Supplied, Width, FilledSafely, ClashFree;
    RenderMeaning(owner, t, params, rules);
  }

  /** One set of parameters binds exactly when every binding does. */
  lemma {:induction false} BoundOkIff(bundle: string, bs: seq<Binding>, params: Params, rules: Rules)
    ensures Bound(bundle, bs, params, rules).Ok? <==> BindsOnce(bs, params, rules)
    decreases |bs|
  {
    hide Rendered, Supplied, Width, Names;
    if bs != [] {
      var n := |bs| - 1;
      assert forall i :: 0 <= i < n ==> bs[..n][i] == bs[i];
      BoundOkIff(bundle, bs[..n], params, rules);
      RendersIff(bundle, bs[n].template, params, rules);
    }
  }

  lemma {:induction false} EachOkIff<B>(n: nat, f: nat -> Result<B, CatalogError>)
    ensures Each(n, f).Ok? <==> forall k :: 0 <= k < n ==> f(k).Ok?
  {
    if n > 0 { EachOkIff(n - 1, f); }
  }

  /** The bindings fan out exactly when, for every element of the driving list, each renders to one string. */
  lemma FannedOkIff(bundle: string, bs: seq<Binding>, params: Params, rules: Rules)
    ensures Fanned(bundle, bs, params, rules).Ok? <==> forall k :: 0 <= k < FanOut(bs, params) ==> BindsOnce(bs, Narrowed(bs, params, k), rules)
    ensures Fanned(bundle, bs, params, rules).Ok? ==> |Fanned(bundle, bs, params, rules).value| == FanOut(bs, params)
  {
    hide Bound, BindsOnce, Narrowed, FanOut;
    var f := BoundAt(bundle, bs, params, rules);
    EachOkIff(FanOut(bs, params), f);
    if Fanned(bundle, bs, params, rules).Ok? { EachAre(FanOut(bs, params), f); }
    forall k: nat ensures f(k).Ok? <==> BindsOnce(bs, Narrowed(bs, params, k), rules) {
      BoundOkIff(bundle, bs, Narrowed(bs, params, k), rules);
    }
  }

  lemma {:induction false} BindingNamesHold(bs: seq<Binding>, i: nat, n: string)
    requires i < |bs| && n in Placeholders(bs[i].template)
    ensures n in BindingNames(bs)
    decreases |bs|
  {
    hide Placeholders;
    if i < |bs| - 1 { BindingNamesHold(bs[..|bs| - 1], i, n); }
  }

  lemma {:induction false} BindingNamesAre(bs: seq<Binding>, n: string) returns (i: nat)
    requires n in BindingNames(bs)
    ensures i < |bs| && n in Names(bs[i].template)
    decreases |bs|
  {
    hide Placeholders;
    var k := |bs| - 1;
    if n in Placeholders(bs[k].template) {
      i := k;
    } else {
      i := BindingNamesAre(bs[..k], n);
      assert bs[..k][i] == bs[i];
    }
  }

  /** A value a binding takes as one string: an acceptable scalar, or a list of exactly one. */
  predicate Single(name: string, v: ParamValue, rules: Rules) {
    if v.Items? then |v.items| == 1 && ScalarOk(name, v.items[0], rules) else ScalarOk(name, v, rules)
  }

  lemma SingleIsOk(name: string, v: ParamValue, rules: Rules)
    ensures Single(name, v, rules) <==> ValueOk(name, v, rules) && (v.Items? ==> |v.items| == 1)
  {
  }

  ghost predicate AllSingle(names: seq<string>, params: Params, rules: Rules) {
    forall n :: n in names ==> n in params && Single(n, params[n], rules)
  }

  /** With one list at most, the bindings render once each exactly when every parameter in them is single. */
  lemma BindsOnceIff(bs: seq<Binding>, params: Params, rules: Rules)
    requires OneDimension(BindingNames(bs), params)
    ensures BindsOnce(bs, params, rules) <==> AllSingle(BindingNames(bs), params, rules)
  {
    hide BindingNames, Placeholders, ScalarOk, Single;
    if BindsOnce(bs, params, rules) {
      forall n | n in BindingNames(bs) ensures n in params && Single(n, params[n], rules) {
        var i := BindingNamesAre(bs, n);
        OnceIsSingle(Names(bs[i].template), params, rules, n);
      }
    }
    if AllSingle(BindingNames(bs), params, rules) {
      forall i | 0 <= i < |bs| ensures Supplied(Names(bs[i].template), params, rules) && Width(Names(bs[i].template), params) == 1 {
        forall n | n in Names(bs[i].template) ensures n in BindingNames(bs) { BindingNamesHold(bs, i, n); }
        SingleIsOnce(Names(bs[i].template), params, rules);
      }
    }
  }

  lemma OnceIsSingle(names: seq<string>, params: Params, rules: Rules, n: string)
    requires Supplied(names, params, rules) && Width(names, params) == 1 && n in names
    ensures n in params && Single(n, params[n], rules)
  {
    hide ScalarOk, Single;
    SingleIsOk(n, params[n], rules);
  }

  lemma SingleIsOnce(names: seq<string>, params: Params, rules: Rules)
    requires AllSingle(names, params, rules) && OneDimension(names, params)
    ensures Supplied(names, params, rules) && Width(names, params) == 1
  {
    hide ScalarOk, Single;
    forall n | n in names ensures ValueOk(n, params[n], rules) && (params[n].Items? ==> |params[n].items| == 1) {
      SingleIsOk(n, params[n], rules);
    }
    assert forall a, b :: a in names && b in names && params[a].Items? && params[b].Items? ==> a == b by {
      forall a, b | a in names && b in names && params[a].Items? && params[b].Items? ensures a == b {
        assert IsList(params, a) && IsList(params, b);
      }
    }
  }

  /** A value that passes through bindings: a list of singles, or a single scalar. */
  predicate Passes(name: string, v: ParamValue, rules: Rules) {
    if v.Items? then forall k :: 0 <= k < |v.items| ==> Single(name, v.items[k], rules) else ScalarOk(name, v, rules)
  }

  lemma NarrowedDimension(bs: seq<Binding>, params: Params, k: nat)
    requires OneDimension(BindingNames(bs), params) && k < FanOut(bs, params)
    ensures OneDimension(BindingNames(bs), Narrowed(bs, params, k))
  {
    hide BindingNames, Driver;
    DriverIs(BindingNames(bs), params);
  }

  lemma NarrowedSingleIff(bs: seq<Binding>, params: Params, rules: Rules, n: string)
    requires OneDimension(BindingNames(bs), params) && n in BindingNames(bs) && FanOut(bs, params) > 0
    ensures (n in params && Passes(n, params[n], rules)) <==>
            forall k :: 0 <= k < FanOut(bs, params) ==> n in Narrowed(bs, params, k) && Single(n, Narrowed(bs, params, k)[n], rules)
  {
    hide BindingNames, Driver, ScalarOk;
    DriverIs(BindingNames(bs), params);
    var l := Driver(BindingNames(bs), params);
    if l == Some(n) {
      forall k | 0 <= k < FanOut(bs, params) ensures Narrowed(bs, params, k)[n] == params[n].items[k] { }
    } else {
      forall k | 0 <= k < FanOut(bs, params)
        ensures n in Narrowed(bs, params, k) <==> n in params
        ensures n in params ==> Narrowed(bs, params, k)[n] == params[n] && !params[n].Items?
      { }
      var first := Narrowed(bs, params, 0);
      assert n in first && Single(n, first[n], rules) <==> n in params && Passes(n, params[n], rules);
    }
  }

  /**
   With one list among them, bindings accept the role's parameters exactly when the list is empty, or every
   parameter they mention is an acceptable scalar, or a list whose elements are acceptable scalars or lists
   of one acceptable scalar.
   */
  lemma BindingsAcceptIff(bundle: string, bs: seq<Binding>, params: Params, rules: Rules)
    requires OneDimension(BindingNames(bs), params)
    ensures Fanned(bundle, bs, params, rules).Ok? <==>
            FanOut(bs, params) == 0 || forall n :: n in BindingNames(bs) ==> n in params && Passes(n, params[n], rules)
  {
    hide BindingNames, Fanned, FanOut, Narrowed, OneDimension, BindsOnce, Passes, Single;
    FannedOkIff(bundle, bs, params, rules);
    forall k | 0 <= k < FanOut(bs, params)
      ensures BindsOnce(bs, Narrowed(bs, params, k), rules) <==> AllSingle(BindingNames(bs), Narrowed(bs, params, k), rules)
    {
      NarrowedDimension(bs, params, k);
      BindsOnceIff(bs, Narrowed(bs, params, k), rules);
    }
    if FanOut(bs, params) > 0 {
      forall n | n in BindingNames(bs)
        ensures (n in params && Passes(n, params[n], rules)) <==>
                forall k :: 0 <= k < FanOut(bs, params) ==> n in Narrowed(bs, params, k) && Single(n, Narrowed(bs, params, k)[n], rules)
      {
        NarrowedSingleIff(bs, params, rules, n);
      }
    }
  }

  /** A template that takes the list itself refuses an element that is not a scalar. */
  lemma NestedListIsRefusedDirectly(owner: string, t: string, params: Params, rules: Rules, n: string, k: nat)
    requires n in Placeholders(t) && IsList(params, n) && k < |params[n].items| && !params[n].items[k].Scalar?
    ensures Rendered(owner, t, params, rules).Err?
  {
    hide Rendered, Placeholders;
    RendersIff(owner, t, params, rules);
    assert n in Names(t);
    assert !ScalarOk(n, params[n].items[k], rules);
  }

  // ----- when a second list is reported -----

  /** The first binding that cannot be taken fails for its width alone. */
  ghost predicate WidthFails(bs: seq<Binding>, params: Params, rules: Rules, i: nat) {
    i < |bs| && BindsOnce(bs[..i], params, rules) && Supplied(Names(bs[i].template), params, rules) && Width(Names(bs[i].template), params) != 1
  }

  lemma {:induction false} BoundFansOutIff(bundle: string, bs: seq<Binding>, params: Params, rules: Rules)
    ensures Bound(bundle, bs, params, rules) == Err(MultipleExpansionLists(bundle)) <==> exists i: nat :: WidthFails(bs, params, rules, i)
    decreases |bs|
  {
    hide Rendered, Supplied, Width, Names, BindsOnce, WidthFails;
    if bs == [] {
      assert forall i: nat :: !WidthFails(bs, params, rules, i) by { NothingFails(bs, params, rules); }
    } else {
      var n := |bs| - 1;
      BoundFansOutIff(bundle, bs[..n], params, rules);
      BoundOkIff(bundle, bs[..n], params, rules);
      RendersIff(bundle, bs[n].template, params, rules);
      RenderNeverFansOut(bundle, bs[n].template, params, rules);
      forall i: nat ensures WidthFails(bs, params, rules, i) <==> WidthFails(bs[..n], params, rules, i) || (i == n && LastFails(bs, params, rules)) {
        WidthFailsSplits(bs, params, rules, i);
      }
      if BindsOnce(bs[..n], params, rules) { NothingFails(bs[..n], params, rules); }
      if LastFails(bs, params, rules) { assert WidthFails(bs, params, rules, n); }
      if i: nat :| WidthFails(bs[..n], params, rules, i) { assert WidthFails(bs, params, rules, i); }
    }
  }

  ghost predicate LastFails(bs: seq<Binding>, params: Params, rules: Rules)
    requires bs != []
  {
    var n := |bs| - 1;
    BindsOnce(bs[..n], params, rules) && Supplied(Names(bs[n].template), params, rules) && Width(Names(bs[n].template), params) != 1
  }

  lemma WidthFailsSplits(bs: seq<Binding>, params: Params, rules: Rules, i: nat)
    requires bs != []
    ensures WidthFails(bs, params, rules, i) <==>
            WidthFails(bs[..|bs| - 1], params, rules, i) || (i == |bs| - 1 && LastFails(bs, params, rules))
  {
    hide Supplied, Width, Names, BindsOnce;
    if i < |bs| - 1 {
      assert bs[..|bs| - 1][..i] == bs[..i] && bs[..|bs| - 1][i] == bs[i];
    }
  }

  lemma NothingFails(bs: seq<Binding>, params: Params, rules: Rules)
    requires BindsOnce(bs, params, rules) || bs == []
    ensures forall i: nat :: !WidthFails(bs, params, rules, i)
  {
    hide Supplied, Width, Names;
  }

  lemma {:induction false} EachFailsIff<B>(n: nat, f: nat -> Result<B, CatalogError>, e: CatalogError)
    ensures Each(n, f) == Err(e) <==> exists k :: 0 <= k < n && f(k) == Err(e) && forall j :: 0 <= j < k ==> f(j).Ok?
  {
    EachOkIff(n, f);
    if n > 0 {
      EachFailsIff(n - 1, f, e);
      EachOkIff(n - 1, f);
    }
  }

  /**
   The bindings report a second list exactly when the first element they cannot take fails for its width:
   every value in the binding that fails is acceptable, and it renders to none or to several strings.
   */
  lemma SecondListReportedIff(bundle: string, bs: seq<Binding>, params: Params, rules: Rules)
    ensures Fanned(bundle, bs, params, rules) == Err(MultipleExpansionLists(bundle)) <==>
            exists k, i: nat :: 0 <= k < FanOut(bs, params) && WidthFails(bs, Narrowed(bs, params, k), rules, i)
                           && forall j :: 0 <= j < k ==> BindsOnce(bs, Narrowed(bs, params, j), rules)
  {
    hide Bound, BindsOnce, Narrowed, FanOut, WidthFails;
    var f := BoundAt(bundle, bs, params, rules);
    var e := MultipleExpansionLists(bundle);
    EachFailsIff(FanOut(bs, params), f, e);
    forall k: nat
      ensures f(k).Ok? <==> BindsOnce(bs, Narrowed(bs, params, k), rules)
      ensures f(k) == Err(e) <==> exists i: nat :: WidthFails(bs, Narrowed(bs, params, k), rules, i)
    {
      BoundOkIff(bundle, bs, Narrowed(bs, params, k), rules);
      BoundFansOutIff(bundle, bs, Narrowed(bs, params, k), rules);
    }
    if Fanned(bundle, bs, params, rules) == Err(e) {
      var k :| 0 <= k < FanOut(bs, params) && f(k) == Err(e) && forall j :: 0 <= j < k ==> f(j).Ok?;
      var i: nat :| WidthFails(bs, Narrowed(bs, params, k), rules, i);
    }
  }

  /** The driving list has an element that is itself a list of none or of several. */
  predicate WideElement(bs: seq<Binding>, params: Params, k: nat) {
    var l := Driver(BindingNames(bs), params);
    l.Some? && k < |params[l.value].items| && params[l.value].items[k].Items? && |params[l.value].items[k].items| != 1
  }

  lemma FailsByElement(bs: seq<Binding>, params: Params, rules: Rules, k: nat, i: nat)
    requires OneDimension(BindingNames(bs), params) && k < FanOut(bs, params) && WidthFails(bs, Narrowed(bs, params, k), rules, i)
    ensures WideElement(bs, params, k)
  {
    hide BindingNames, Driver, Placeholders, BindsOnce, Supplied;
    var env := Narrowed(bs, params, k);
    DriverIs(BindingNames(bs), params);
    var n := ListName(Names(bs[i].template), env).value;
    BindingNamesHold(bs, i, n);
  }

  /** With one list, a second is reported only for an element that is a list of none or of several; and such an element never passes. */
  lemma FanOutIsOneList(bundle: string, bs: seq<Binding>, params: Params, rules: Rules)
    requires OneDimension(BindingNames(bs), params)
    ensures Fanned(bundle, bs, params, rules) == Err(MultipleExpansionLists(bundle)) ==> exists k: nat :: WideElement(bs, params, k)
    ensures (exists k: nat :: WideElement(bs, params, k)) ==> Fanned(bundle, bs, params, rules).Err?
  {
    hide BindingNames, Fanned, FanOut, Narrowed, OneDimension, BindsOnce, WidthFails, ScalarOk;
    SecondListReportedIff(bundle, bs, params, rules);
    if Fanned(bundle, bs, params, rules) == Err(MultipleExpansionLists(bundle)) {
      var k, i: nat :| 0 <= k < FanOut(bs, params) && WidthFails(bs, Narrowed(bs, params, k), rules, i)
                  && forall j :: 0 <= j < k ==> BindsOnce(bs, Narrowed(bs, params, j), rules);
      FailsByElement(bs, params, rules, k, i);
    }
    if k: nat :| WideElement(bs, params, k) {
      BindingsAcceptIff(bundle, bs, params, rules);
      DriverIs(BindingNames(bs), params);
      WideFansOut(bs, params, k);
      var l := Driver(BindingNames(bs), params).value;
      assert !Single(l, params[l].items[k], rules);
      assert !Passes(l, params[l], rules);
    }
  }

  lemma WideFansOut(bs: seq<Binding>, params: Params, k: nat)
    requires WideElement(bs, params, k)
    ensures FanOut(bs, params) > 0
  {
  }

  lemma {:induction false} DefectsNeverFanOut(owner: string, names: seq<string>, params: Params, rules: Rules)
    ensures Defects(owner, names, params, rules).Some? ==> !Defects(owner, names, params, rules).value.MultipleExpansionLists?
    decreases |names|
  {
    if names != [] {
      DefectsNeverFanOut(owner, names[..|names| - 1], params, rules);
      var n := names[|names| - 1];
      if n in params && params[n].Items? { ItemsNeverFanOut(owner, n, params[n].items, rules); }
    }
  }

  lemma {:induction false} ItemsNeverFanOut(owner: string, name: string, xs: seq<ParamValue>, rules: Rules)
    ensures ItemsDefect(owner, name, xs, rules).Some? ==> !ItemsDefect(owner, name, xs, rules).value.MultipleExpansionLists?
    decreases |xs|
  {
    if xs != [] { ItemsNeverFanOut(owner, name, xs[..|xs| - 1], rules); }
  }

  lemma RenderNeverFansOut(owner: string, t: string, params: Params, rules: Rules)
    ensures Rendered(owner, t, params, rules).Err? ==> !Rendered(owner, t, params, rules).error.MultipleExpansionLists?
  {
    hide Defects, Names;
    DefectsNeverFanOut(owner, Names(t), params, rules);
  }

  lemma {:induction false} BoundNamesHold(bound: seq<BoundMember>, j: nat, n: string)
    requires j < |bound| && n in BindingNames(bound[j].edge.bindings)
    ensures n in BoundNames(bound)
    decreases |bound|
  {
    hide BindingNames;
    if j < |bound| - 1 { BoundNamesHold(bound[..|bound| - 1], j, n); }
  }

  /**
   After the upfront check, what a bound member's bindings accept is decided value by value, and a second
   list is reported only for an element that is itself a list of none or of several.
   */
  lemma UpfrontCheckSuffices(r: ResolvedPermission, params: Params, j: nat)
    requires OneDimension(ExpansionNames(r), params) && j < |r.bound|
    ensures var bs := r.bound[j].edge.bindings;
            && (Fanned(r.id, bs, params, r.params).Ok? <==>
                  FanOut(bs, params) == 0 || forall n :: n in BindingNames(bs) ==> n in params && Passes(n, params[n], r.params))
            && (Fanned(r.id, bs, params, r.params) == Err(MultipleExpansionLists(r.id)) ==> exists k: nat :: WideElement(bs, params, k))
  {
    hide BindingNames, BoundNames, AllPlaceholders, Fanned, FanOut, Passes, WideElement;
    var bs := r.bound[j].edge.bindings;
    forall n | n in BindingNames(bs) ensures n in ExpansionNames(r) { BoundNamesHold(r.bound, j, n); }
    FanOutIsOneList(r.id, bs, params, r.params);
    BindingsAcceptIff(r.id, bs, params, r.params);
  }

  lemma {:induction false} CollectLength<A, B>(xs: seq<A>, f: A -> Result<seq<B>, CatalogError>)
    requires Collect(xs, f).Ok? && forall i :: 0 <= i < |xs| && f(xs[i]).Ok? ==> |f(xs[i]).value| == 1
    ensures |Collect(xs, f).value| == |xs|
    decreases |xs|
  {
    if xs != [] {
      assert forall i :: 0 <= i < |xs| - 1 ==> xs[..|xs| - 1][i] == xs[i];
      CollectLength(xs[..|xs| - 1], f);
      CollectOk(xs, f, |xs| - 1);
    }
  }

  predicate AllScalar(params: Params) { forall n :: n in params ==> params[n].Scalar? }

  lemma ScalarSubstitutionLength(owner: string, p: Primitives, params: Params, rules: Rules)
    requires Substituted(owner, p, params, rules).Ok? && AllScalar(params)
    ensures |Substituted(owner, p, params, rules).value.groups| == |p.groups|
    ensures |Substituted(owner, p, params, rules).value.sudo| == |p.sudo|
  {
    hide Rendered, Copies, FirstBad, FilesOf, GroupCopies, CommandCopies;
    var g, c := GroupCopies(owner, params, rules), CommandCopies(owner, params, rules);
    forall i | 0 <= i < |p.groups| && g(p.groups[i]).Ok? ensures |g(p.groups[i]).value| == 1 {
      GroupCopyIs(owner, p.groups[i], params, rules);
      ScalarWidth(Names(p.groups[i]), params);
    }
    CollectLength(p.groups, g);
    forall i | 0 <= i < |p.sudo| && c(p.sudo[i]).Ok? ensures |c(p.sudo[i]).value| == 1 {
      CommandCopyIs(owner, p.sudo[i], params, rules);
      ScalarWidth(Names(p.sudo[i].command), params);
    }
    CollectLength(p.sudo, c);
  }

  lemma {:induction false} CopiedLength(owner: string, p: Primitives, copies: seq<Params>, rules: Rules)
    requires Copied(owner, p, copies, rules).Ok?
    requires forall k :: 0 <= k < |copies| ==> AllScalar(copies[k])
    ensures |Copied(owner, p, copies, rules).value.groups| == |copies| * |p.groups|
    ensures |Copied(owner, p, copies, rules).value.sudo| == |copies| * |p.sudo|
    decreases |copies|
  {
    hide Substituted;
    if copies != [] {
      var n := |copies| - 1;
      assert forall k :: 0 <= k < n ==> copies[..n][k] == copies[k];
      CopiedLength(owner, p, copies[..n], rules);
      ScalarSubstitutionLength(owner, p, copies[n], rules);
      assert |copies| * |p.groups| == n * |p.groups| + |p.groups|;
      assert |copies| * |p.sudo| == n * |p.sudo| + |p.sudo|;
    }
  }

  /** A bound member is multiplied by the length of the one list, never by a product of lists. */
  lemma MemberMultipliesOnce(bundle: string, b: BoundMember, params: Params, rules: Rules)
    requires Expanded(bundle, b, params, rules).Ok?
    ensures |Expanded(bundle, b, params, rules).value.groups| == FanOut(b.edge.bindings, params) * |b.member.groups|
    ensures |Expanded(bundle, b, params, rules).value.sudo| == FanOut(b.edge.bindings, params) * |b.member.sudo|
  {
    hide Copied, Bound, FanOut, Narrowed;
    var bs := b.edge.bindings;
    var copies: seq<Params> := Fanned(bundle, bs, params, rules).value;
    EachAre(FanOut(bs, params), BoundAt(bundle, bs, params, rules));
    forall k | 0 <= k < |copies| ensures AllScalar(copies[k]) {
      assert BoundAt(bundle, bs, params, rules)(k) == Ok(copies[k]);
      BoundIsScalar(bundle, bs, Narrowed(bs, params, k), rules);
    }
    CopiedLength(b.edge.id, Of(b.member), copies, b.member.params);
  }
}
