/** The include graph behind a resolve: what success and each graph error say about it (src/catalog.rs). */
module IncludeGraph {
  import opened Outcomes
  import opened CatalogTypes
  import opened Rendering
  import opened Grants
  import opened Leaf
  import opened Expansion
  import opened Resolver

  // ----- what the records say -----

  /** Some layer's record of the id is `d`. */
  ghost predicate States(layers: seq<Layer>, id: string, d: PermissionDef) {
    exists i :: 0 <= i < |layers| && FindDef(layers[i], id) == Some(d)
  }

  /** A record of `id` includes `m` without bindings. */
  ghost predicate TakesBare(layers: seq<Layer>, id: string, m: string) {
    exists d, inc :: States(layers, id, d) && inc in d.includes && inc.bindings == [] && inc.id == m
  }

  ghost predicate InLayers(layers: seq<Layer>, e: PermissionDef) { exists i :: 0 <= i < |layers| && e in layers[i] }

  /** A record of `id` names a category, and some record anywhere puts `m` into it. */
  ghost predicate TakesByCategory(layers: seq<Layer>, id: string, m: string) {
    exists d, c, e :: States(layers, id, d) && c in d.includeCategories && InLayers(layers, e) && e.category == Some(c) && e.id == m
  }

  /** A record of `id` includes a member with these bindings. */
  ghost predicate TakesBound(layers: seq<Layer>, id: string, inc: Include) {
    exists d :: States(layers, id, d) && inc in d.includes && inc.bindings != []
  }

  /** Flattened into `id`: bare includes, and the members of its categories. */
  ghost predicate Flattens(layers: seq<Layer>, id: string, m: string) { TakesBare(layers, id, m) || TakesByCategory(layers, id, m) }

  /** `a` pulls in `b`: as a bare include, through a category, or through bindings. */
  ghost predicate Edge(layers: seq<Layer>, a: string, b: string) {
    Flattens(layers, a, b) || exists inc :: TakesBound(layers, a, inc) && inc.id == b
  }

  lemma {:induction false} StatedIs(layers: seq<Layer>, id: string, d: PermissionDef)
    ensures d in Stated(layers, id) <==> States(layers, id, d)
    decreases |layers|
  {
    hide FindDef;
    if layers != [] {
      var n := |layers| - 1;
      StatedIs(layers[..n], id, d);
      assert forall i :: 0 <= i < n ==> layers[..n][i] == layers[i];
      if States(layers, id, d) && FindDef(layers[n], id) != Some(d) {
        var i :| 0 <= i < |layers| && FindDef(layers[i], id) == Some(d);
        assert FindDef(layers[..n][i], id) == Some(d);
      }
      if States(layers[..n], id, d) {
        var i :| 0 <= i < n && FindDef(layers[..n][i], id) == Some(d);
        assert FindDef(layers[i], id) == Some(d);
      }
    }
  }

  lemma {:induction false} IncludesHold(defs: seq<PermissionDef>, inc: Include)
    ensures inc in IncludesOf(defs) <==> exists d :: d in defs && inc in d.includes
    decreases |defs|
  {
    if defs != [] {
      var n := |defs| - 1;
      IncludesHold(defs[..n], inc);
      assert defs == defs[..n] + [defs[n]];
    }
  }

  lemma {:induction false} CategoriesHold(defs: seq<PermissionDef>, c: string)
    ensures c in CategoriesOf(defs) <==> exists d :: d in defs && c in d.includeCategories
    decreases |defs|
  {
    if defs != [] {
      var n := |defs| - 1;
      CategoriesHold(defs[..n], c);
      assert defs == defs[..n] + [defs[n]];
    }
  }

  lemma {:induction false} AllDefsHold(layers: seq<Layer>, e: PermissionDef)
    ensures e in AllDefs(layers) <==> InLayers(layers, e)
    decreases |layers|
  {
    if layers != [] {
      var n := |layers| - 1;
      AllDefsHold(layers[..n], e);
      assert forall i :: 0 <= i < n ==> layers[..n][i] == layers[i];
      if InLayers(layers, e) && e !in layers[n] {
        var i :| 0 <= i < |layers| && e in layers[i];
        assert e in layers[..n][i];
      }
    }
  }

  lemma {:induction false} InCategoryHolds(defs: seq<PermissionDef>, c: string, m: string)
    ensures m in InCategory(defs, c) <==> exists e :: e in defs && e.category == Some(c) && e.id == m
    decreases |defs|
  {
    if defs != [] {
      var n := |defs| - 1;
      InCategoryHolds(defs[..n], c, m);
      assert defs == defs[..n] + [defs[n]];
    }
  }

  lemma {:induction false} MaterializedHolds(defs: seq<PermissionDef>, cats: seq<string>, m: string)
    ensures m in Materialized(defs, cats) <==> exists c :: c in cats && m in InCategory(defs, c)
    decreases |cats|
  {
    hide InCategory;
    if cats != [] {
      var n := |cats| - 1;
      MaterializedHolds(defs, cats[..n], m);
      assert cats == cats[..n] + [cats[n]];
      if m in InCategory(defs, cats[n]) { assert cats[n] in cats; }
      if c :| c in cats[..n] && m in InCategory(defs, c) { assert c in cats; }
      if c :| c in cats && m in InCategory(defs, c) { assert c in cats[..n] || c == cats[n]; }
    }
  }

  lemma {:induction false} BareIdsHold(includes: seq<Include>, m: string)
    ensures m in BareIds(includes) <==> exists inc :: inc in includes && inc.bindings == [] && inc.id == m
    decreases |includes|
  {
    if includes != [] {
      var n := |includes| - 1;
      BareIdsHold(includes[..n], m);
      assert includes == includes[..n] + [includes[n]];
    }
  }

  lemma {:induction false} BoundIncludesHold(includes: seq<Include>, inc: Include)
    ensures inc in BoundIncludes(includes) <==> inc in includes && inc.bindings != []
    decreases |includes|
  {
    if includes != [] {
      var n := |includes| - 1;
      BoundIncludesHold(includes[..n], inc);
      assert includes == includes[..n] + [includes[n]];
    }
  }

  lemma IncludeIsStated(layers: seq<Layer>, id: string, inc: Include)
    ensures inc in Includes(layers, id) <==> exists d :: States(layers, id, d) && inc in d.includes
  {
    hide States, IncludesOf, Stated;
    IncludesHold(Stated(layers, id), inc);
    forall d ensures d in Stated(layers, id) <==> States(layers, id, d) { StatedIs(layers, id, d); }
  }

  lemma CategoryIsStated(layers: seq<Layer>, id: string, c: string)
    ensures c in Categories(layers, id) <==> exists d :: States(layers, id, d) && c in d.includeCategories
  {
    hide States, CategoriesOf, Stated;
    CategoriesHold(Stated(layers, id), c);
    forall d ensures d in Stated(layers, id) <==> States(layers, id, d) { StatedIs(layers, id, d); }
  }

  lemma BareIsStated(layers: seq<Layer>, id: string, m: string)
    ensures m in BareIds(Includes(layers, id)) <==> TakesBare(layers, id, m)
  {
    hide States, Includes, BareIds;
    BareIdsHold(Includes(layers, id), m);
    forall inc ensures inc in Includes(layers, id) <==> exists d :: States(layers, id, d) && inc in d.includes { IncludeIsStated(layers, id, inc); }
  }

  lemma CategoryMemberIsStated(layers: seq<Layer>, id: string, m: string)
    ensures m in Materialized(AllDefs(layers), Categories(layers, id)) <==> TakesByCategory(layers, id, m)
  {
    hide States, Categories, Materialized, InCategory, AllDefs, InLayers;
    MaterializedHolds(AllDefs(layers), Categories(layers, id), m);
    forall c ensures c in Categories(layers, id) <==> exists d :: States(layers, id, d) && c in d.includeCategories { CategoryIsStated(layers, id, c); }
    forall c ensures m in InCategory(AllDefs(layers), c) <==> Categorizes(layers, c, m) { CategorizesExactly(layers, c, m); }
    if m in Materialized(AllDefs(layers), Categories(layers, id)) {
      var c :| c in Categories(layers, id) && m in InCategory(AllDefs(layers), c);
      var d :| States(layers, id, d) && c in d.includeCategories;
      var e :| InLayers(layers, e) && e.category == Some(c) && e.id == m;
    }
    if TakesByCategory(layers, id, m) {
      var d, c, e :| States(layers, id, d) && c in d.includeCategories && InLayers(layers, e) && e.category == Some(c) && e.id == m;
      assert Categorizes(layers, c, m);
      assert c in Categories(layers, id) && m in InCategory(AllDefs(layers), c);
    }
  }

  /** Some record anywhere puts `m` into the category. */
  ghost predicate Categorizes(layers: seq<Layer>, c: string, m: string) {
    exists e :: InLayers(layers, e) && e.category == Some(c) && e.id == m
  }

  /** The listed members of a category are exactly the ids some record puts there. */
  lemma CategorizesExactly(layers: seq<Layer>, c: string, m: string)
    ensures m in InCategory(AllDefs(layers), c) <==> Categorizes(layers, c, m)
  {
    hide AllDefs, InLayers, InCategory;
    InCategoryHolds(AllDefs(layers), c, m);
    forall e ensures e in AllDefs(layers) <==> InLayers(layers, e) { AllDefsHold(layers, e); }
  }

  /** A member is flattened exactly when a record includes it bare, or names a category that some record puts it in. */
  lemma MembersExactly(layers: seq<Layer>, id: string, m: string)
    ensures m in Members(layers, id) <==> Flattens(layers, id, m)
  {
    hide TakesBare, TakesByCategory, BareIds, Materialized, Includes, Categories, AllDefs;
    BareIsStated(layers, id, m);
    CategoryMemberIsStated(layers, id, m);
  }

  /** And bound exactly when a record includes it with bindings. */
  lemma BindingsExactly(layers: seq<Layer>, id: string, inc: Include)
    ensures inc in Bindings(layers, id) <==> TakesBound(layers, id, inc)
  {
    hide States, Includes, BoundIncludes;
    BoundIncludesHold(Includes(layers, id), inc);
    IncludeIsStated(layers, id, inc);
  }

  lemma EdgeIs(layers: seq<Layer>, a: string, b: string)
    ensures Edge(layers, a, b) <==> b in Members(layers, a) || exists i :: 0 <= i < |Bindings(layers, a)| && Bindings(layers, a)[i].id == b
  {
    hide Flattens, TakesBound, Members, Bindings;
    MembersExactly(layers, a, b);
    forall inc ensures inc in Bindings(layers, a) <==> TakesBound(layers, a, inc) { BindingsExactly(layers, a, inc); }
  }

  ghost predicate Walk(layers: seq<Layer>, w: seq<string>) {
    forall i :: 0 <= i < |w| - 1 ==> Edge(layers, w[i], w[i + 1])
  }

  lemma LeafHasNoEdge(layers: seq<Layer>, a: string, b: string)
    requires IsLeaf(layers, a)
    ensures !Edge(layers, a, b)
  {
    hide Edge;
    EdgeIs(layers, a, b);
  }

  lemma WalkTail(layers: seq<Layer>, w: seq<string>)
    requires |w| > 1 && Walk(layers, w)
    ensures Walk(layers, w[1..])
  {
    hide Edge;
    forall i | 0 <= i < |w[1..]| - 1
      ensures Edge(layers, w[1..][i], w[1..][i + 1])
    {
      assert Edge(layers, w[i + 1], w[i + 1 + 1]);
    }
  }

  // ----- success -----

  /** What a successful bundle resolve went through. */
  lemma Anatomy(layers: seq<Layer>, id: string, path: seq<string>)
    requires |path| <= MAX_INCLUDE_DEPTH && Resolution(layers, id, path).Ok? && !IsLeaf(layers, id)
    ensures id !in path && |path| < MAX_INCLUDE_DEPTH && LeafOf(layers, id).Ok?
    ensures var own := LeafOf(layers, id).value;
            var flat := Flattened(layers, id, path + [id], Members(layers, id), Start(own));
            && flat.Ok?
            && var all := WithBound(layers, id, path + [id], Bindings(layers, id), flat.value);
               all.Ok? && Resolution(layers, id, path) == Finish(layers, id, own, all.value)
  {
    hide Flattened, WithBound, Finish, LeafOf, Members, Bindings, IsLeaf;
  }

  lemma {:induction false} MemberResolves(layers: seq<Layer>, bundle: string, path: seq<string>, members: seq<string>, start: Acc, i: nat)
    requires |path| <= MAX_INCLUDE_DEPTH && Flattened(layers, bundle, path, members, start).Ok? && i < |members|
    ensures Resolution(layers, members[i], path).Ok? && Resolution(layers, members[i], path).value.bound == []
    decreases |members|
  {
    hide Resolution;
    if i < |members| - 1 { MemberResolves(layers, bundle, path, members[..|members| - 1], start, i); }
  }

  lemma {:induction false} BindingResolves(layers: seq<Layer>, bundle: string, path: seq<string>, incs: seq<Include>, start: Acc, i: nat)
    requires |path| <= MAX_INCLUDE_DEPTH && WithBound(layers, bundle, path, incs, start).Ok? && i < |incs|
    ensures Resolution(layers, incs[i].id, path).Ok? && Resolution(layers, incs[i].id, path).value.bound == []
    decreases |incs|
  {
    hide Resolution, Expanded;
    if i < |incs| - 1 { BindingResolves(layers, bundle, path, incs[..|incs| - 1], start, i); }
  }

  lemma EdgeResolves(layers: seq<Layer>, id: string, path: seq<string>, next: string)
    requires |path| <= MAX_INCLUDE_DEPTH && Resolution(layers, id, path).Ok? && Edge(layers, id, next)
    ensures |path| < MAX_INCLUDE_DEPTH
    ensures Resolution(layers, next, path + [id]).Ok? && Resolution(layers, next, path + [id]).value.bound == []
  {
    hide Resolution, Flattened, WithBound, Finish, LeafOf, Members, Bindings, IsLeaf, Edge;
    EdgeIs(layers, id, next);
    if IsLeaf(layers, id) { LeafHasNoEdge(layers, id, next); }
    Anatomy(layers, id, path);
    var start := Start(LeafOf(layers, id).value);
    var flat := Flattened(layers, id, path + [id], Members(layers, id), start);
    if next in Members(layers, id) {
      var i :| 0 <= i < |Members(layers, id)| && Members(layers, id)[i] == next;
      MemberResolves(layers, id, path + [id], Members(layers, id), start, i);
    } else {
      var i :| 0 <= i < |Bindings(layers, id)| && Bindings(layers, id)[i].id == next;
      BindingResolves(layers, id, path + [id], Bindings(layers, id), flat.value, i);
    }
  }

  lemma RootResolves(layers: seq<Layer>, id: string, path: seq<string>)
    requires |path| <= MAX_INCLUDE_DEPTH && Resolution(layers, id, path).Ok?
    ensures id !in path && |path| < MAX_INCLUDE_DEPTH && Defined(layers, id)
  {
    hide Flattened, WithBound, Finish, Members, Bindings, IsLeaf, Defined, Fold, Finished;
  }

  /**
   A successful resolve means the graph below the id is sound: along every walk of include edges
   the ids are defined, none repeats or is already being expanded, and with the open bundles there
   are at most 64 of them.
   */
  lemma {:induction false} WalksAreSound(layers: seq<Layer>, path: seq<string>, w: seq<string>)
    requires |path| <= MAX_INCLUDE_DEPTH && w != [] && Walk(layers, w) && Resolution(layers, w[0], path).Ok?
    ensures |path| + |w| <= MAX_INCLUDE_DEPTH
    ensures forall i :: 0 <= i < |w| ==> Defined(layers, w[i]) && w[i] !in path
    ensures forall i, j :: 0 <= i < j < |w| ==> w[i] != w[j]
    ensures Resolution(layers, w[|w| - 1], path + w[..|w| - 1]).Ok?
    decreases |w|
  {
    hide Resolution, Edge, Defined;
    RootResolves(layers, w[0], path);
    if |w| == 1 {
      assert path + w[..0] == path;
    } else {
      assert Edge(layers, w[0], w[1]);
      EdgeResolves(layers, w[0], path, w[1]);
      WalkTail(layers, w);
      WalksAreSound(layers, path + [w[0]], w[1..]);
      var tail := w[1..];
      assert forall i :: 0 < i < |w| ==> w[i] == tail[i - 1];
      assert w[0] in path + [w[0]];
      assert path + w[..|w| - 1] == path + [w[0]] + tail[..|tail| - 1];
    }
  }

  // ----- the place an id is reached from does not matter -----

  predicate Within(q: seq<string>, p: seq<string>) { |q| <= |p| && forall x :: x in q ==> x in p }

  lemma {:induction false} FlattenedShrinks(layers: seq<Layer>, bundle: string, p: seq<string>, q: seq<string>, members: seq<string>, start: Acc)
    requires |p| <= MAX_INCLUDE_DEPTH && Within(q, p) && Flattened(layers, bundle, p, members, start).Ok?
    ensures Flattened(layers, bundle, q, members, start) == Flattened(layers, bundle, p, members, start)
    decreases MAX_INCLUDE_DEPTH - |p|, 1 + |members|
  {
    hide Resolution, AddMember;
    if members != [] {
      var n := |members| - 1;
      FlattenedShrinks(layers, bundle, p, q, members[..n], start);
      MemberResolves(layers, bundle, p, members, start, n);
      PathShrinks(layers, members[n], p, q);
    }
  }

  lemma {:induction false} WithBoundShrinks(layers: seq<Layer>, bundle: string, p: seq<string>, q: seq<string>, incs: seq<Include>, start: Acc)
    requires |p| <= MAX_INCLUDE_DEPTH && Within(q, p) && WithBound(layers, bundle, p, incs, start).Ok?
    ensures WithBound(layers, bundle, q, incs, start) == WithBound(layers, bundle, p, incs, start)
    decreases MAX_INCLUDE_DEPTH - |p|, 1 + |incs|
  {
    hide Resolution, AddBound;
    if incs != [] {
      var n := |incs| - 1;
      WithBoundShrinks(layers, bundle, p, q, incs[..n], start);
      BindingResolves(layers, bundle, p, incs, start, n);
      PathShrinks(layers, incs[n].id, p, q);
    }
  }

  /** An id resolves to the same permission wherever it is reached from, the top level included. */
  lemma {:induction false} PathShrinks(layers: seq<Layer>, id: string, p: seq<string>, q: seq<string>)
    requires |p| <= MAX_INCLUDE_DEPTH && Within(q, p) && Resolution(layers, id, p).Ok?
    ensures Resolution(layers, id, q) == Resolution(layers, id, p)
    decreases MAX_INCLUDE_DEPTH - |p|, 0
  {
    hide Flattened, WithBound, Finish, LeafOf, Members, Bindings, IsLeaf;
    if !IsLeaf(layers, id) {
      Anatomy(layers, id, p);
      var start := Start(LeafOf(layers, id).value);
      FlattenedShrinks(layers, id, p + [id], q + [id], Members(layers, id), start);
      WithBoundShrinks(layers, id, p + [id], q + [id], Bindings(layers, id), Flattened(layers, id, p + [id], Members(layers, id), start).value);
    }
  }

  // ----- failure -----

  predicate GraphError(e: CatalogError) { e.Cycle? || e.IncludeTooDeep? || e.UnknownPermission? }

  lemma {:induction false} CollectError<A, B>(xs: seq<A>, f: A -> Result<seq<B>, CatalogError>)
    requires Collect(xs, f).Err?
    ensures exists i :: 0 <= i < |xs| && f(xs[i]) == Collect(xs, f)
    decreases |xs|
  {
    if Collect(xs[..|xs| - 1], f).Err? {
      CollectError(xs[..|xs| - 1], f);
      var i :| 0 <= i < |xs| - 1 && f(xs[..|xs| - 1][i]) == Collect(xs, f);
      assert f(xs[i]) == Collect(xs, f);
    }
  }

  lemma {:induction false} EachError<B>(n: nat, f: nat -> Result<B, CatalogError>)
    requires Each(n, f).Err?
    ensures exists i :: 0 <= i < n && f(i) == Err(Each(n, f).error)
  {
    if Each(n - 1, f).Err? { EachError(n - 1, f); }
  }

  lemma {:induction false} ItemsErrorIsLocal(owner: string, name: string, xs: seq<ParamValue>, rules: Rules)
    ensures ItemsDefect(owner, name, xs, rules).Some? ==> !GraphError(ItemsDefect(owner, name, xs, rules).value)
    decreases |xs|
  {
    if xs != [] { ItemsErrorIsLocal(owner, name, xs[..|xs| - 1], rules); }
  }

  lemma {:induction false} DefectIsLocal(owner: string, names: seq<string>, params: Params, rules: Rules)
    ensures Defects(owner, names, params, rules).Some? ==> !GraphError(Defects(owner, names, params, rules).value)
    decreases |names|
  {
    hide ItemsDefect;
    if names != [] {
      DefectIsLocal(owner, names[..|names| - 1], params, rules);
      var n := names[|names| - 1];
      if n in params && params[n].Items? { ItemsErrorIsLocal(owner, n, params[n].items, rules); }
    }
  }

  lemma RenderErrorIsLocal(owner: string, t: string, params: Params, rules: Rules)
    ensures Rendered(owner, t, params, rules).Err? ==> !GraphError(Rendered(owner, t, params, rules).error)
  {
    hide Defects, Names;
    DefectIsLocal(owner, Names(t), params, rules);
  }

  lemma SubstituteErrorIsLocal(owner: string, p: Primitives, params: Params, rules: Rules)
    ensures Substituted(owner, p, params, rules).Err? ==> !GraphError(Substituted(owner, p, params, rules).error)
  {
    hide Rendered, Collect;
    if GroupsOf(owner, p.groups, params, rules).Err? {
      var f := GroupCopies(owner, params, rules);
      CollectError(p.groups, f);
      var i :| 0 <= i < |p.groups| && f(p.groups[i]) == Collect(p.groups, f);
      RenderErrorIsLocal(owner, p.groups[i], params, rules);
    } else if CommandsOf(owner, p.sudo, params, rules).Err? {
      var f := CommandCopies(owner, params, rules);
      CollectError(p.sudo, f);
      var i :| 0 <= i < |p.sudo| && f(p.sudo[i]) == Collect(p.sudo, f);
      RenderErrorIsLocal(owner, p.sudo[i].command, params, rules);
    } else if FilesOf(owner, p.files, params, rules).Err? {
      var f := GrantCopies(owner, params, rules);
      CollectError(p.files, f);
      var i :| 0 <= i < |p.files| && f(p.files[i]) == Collect(p.files, f);
      RenderErrorIsLocal(owner, p.files[i].path, params, rules);
    }
  }

  lemma {:induction false} CopyErrorIsLocal(owner: string, p: Primitives, copies: seq<Params>, rules: Rules)
    ensures Copied(owner, p, copies, rules).Err? ==> !GraphError(Copied(owner, p, copies, rules).error)
    decreases |copies|
  {
    hide Substituted;
    if copies != [] {
      CopyErrorIsLocal(owner, p, copies[..|copies| - 1], rules);
      SubstituteErrorIsLocal(owner, p, copies[|copies| - 1], rules);
    }
  }

  lemma {:induction false} BindErrorIsLocal(bundle: string, bs: seq<Binding>, params: Params, rules: Rules)
    ensures Bound(bundle, bs, params, rules).Err? ==> !GraphError(Bound(bundle, bs, params, rules).error)
    decreases |bs|
  {
    hide Rendered;
    if bs != [] {
      BindErrorIsLocal(bundle, bs[..|bs| - 1], params, rules);
      RenderErrorIsLocal(bundle, bs[|bs| - 1].template, params, rules);
    }
  }

  lemma ExpandErrorIsLocal(bundle: string, b: BoundMember, params: Params, rules: Rules)
    ensures Expanded(bundle, b, params, rules).Err? ==> !GraphError(Expanded(bundle, b, params, rules).error)
  {
    hide Bound, Copied, Each, Driver;
    var bs := b.edge.bindings;
    if Fanned(bundle, bs, params, rules).Err? {
      var f := BoundAt(bundle, bs, params, rules);
      EachError(FanOut(bs, params), f);
      var i :| 0 <= i < FanOut(bs, params) && f(i) == Err(Fanned(bundle, bs, params, rules).error);
      BindErrorIsLocal(bundle, bs, Narrowed(bs, params, i), rules);
    } else {
      CopyErrorIsLocal(b.edge.id, Of(b.member), Fanned(bundle, bs, params, rules).value, b.member.params);
    }
  }

  lemma {:induction false} FlattenedError(layers: seq<Layer>, bundle: string, path: seq<string>, members: seq<string>, start: Acc)
    requires |path| <= MAX_INCLUDE_DEPTH && Flattened(layers, bundle, path, members, start).Err?
    requires GraphError(Flattened(layers, bundle, path, members, start).error)
    ensures exists m :: m in members && Resolution(layers, m, path) == Err(Flattened(layers, bundle, path, members, start).error)
    decreases |members|
  {
    hide Resolution;
    var n := |members| - 1;
    if Flattened(layers, bundle, path, members[..n], start).Err? {
      FlattenedError(layers, bundle, path, members[..n], start);
      var m :| m in members[..n] && Resolution(layers, m, path) == Err(Flattened(layers, bundle, path, members, start).error);
      assert m in members;
    } else {
      assert members[n] in members;
    }
  }

  lemma {:induction false} WithBoundError(layers: seq<Layer>, bundle: string, path: seq<string>, incs: seq<Include>, start: Acc)
    requires |path| <= MAX_INCLUDE_DEPTH && WithBound(layers, bundle, path, incs, start).Err?
    requires GraphError(WithBound(layers, bundle, path, incs, start).error)
    ensures exists i :: 0 <= i < |incs| && Resolution(layers, incs[i].id, path) == Err(WithBound(layers, bundle, path, incs, start).error)
    decreases |incs|
  {
    hide Resolution, Expanded;
    var n := |incs| - 1;
    var before := WithBound(layers, bundle, path, incs[..n], start);
    if before.Err? {
      WithBoundError(layers, bundle, path, incs[..n], start);
      var i :| 0 <= i < n && Resolution(layers, incs[..n][i].id, path) == Err(WithBound(layers, bundle, path, incs, start).error);
      assert Resolution(layers, incs[i].id, path) == Err(WithBound(layers, bundle, path, incs, start).error);
    } else {
      var r := Resolution(layers, incs[n].id, path);
      if r.Ok? { ExpandErrorIsLocal(bundle, BoundMember(incs[n], r.value), map[], map[]); }
      assert r == Err(WithBound(layers, bundle, path, incs, start).error);
    }
  }

  /** A graph error of a bundle is the graph error of something it pulls in. */
  lemma ErrorDescends(layers: seq<Layer>, id: string, path: seq<string>)
    requires |path| < MAX_INCLUDE_DEPTH && id !in path && !IsLeaf(layers, id)
    requires Resolution(layers, id, path).Err? && GraphError(Resolution(layers, id, path).error)
    ensures !Defined(layers, id) || exists b :: Edge(layers, id, b) && Resolution(layers, b, path + [id]) == Err(Resolution(layers, id, path).error)
  {
    hide Flattened, WithBound, Members, Bindings, IsLeaf, Defined, Fold, Finished;
    var e := Resolution(layers, id, path).error;
    if Defined(layers, id) {
      var start := Start(LeafOf(layers, id).value);
      var flat := Flattened(layers, id, path + [id], Members(layers, id), start);
      if flat.Err? {
        FlattenedError(layers, id, path + [id], Members(layers, id), start);
        var b :| b in Members(layers, id) && Resolution(layers, b, path + [id]) == Err(e);
        EdgeIs(layers, id, b);
      } else {
        WithBoundError(layers, id, path + [id], Bindings(layers, id), flat.value);
        var i :| 0 <= i < |Bindings(layers, id)| && Resolution(layers, Bindings(layers, id)[i].id, path + [id]) == Err(e);
        EdgeIs(layers, id, Bindings(layers, id)[i].id);
      }
    }
  }

  /** A walk from the root that shows the reported error is real. */
  ghost predicate Shows(layers: seq<Layer>, w: seq<string>, e: CatalogError) {
    && w != [] && Walk(layers, w)
    && match e
       case Cycle(c) => |c| >= 2 && |c| <= |w| && w[|w| - |c|..] == c && c[0] == c[|c| - 1]
       case IncludeTooDeep(id, depth) => |w| == MAX_INCLUDE_DEPTH + 1 && w[MAX_INCLUDE_DEPTH] == id && depth == MAX_INCLUDE_DEPTH
       case UnknownPermission(id) => w[|w| - 1] == id && !Defined(layers, id)
       case _ => false
  }

  /**
   A reported cycle is a closed walk of include edges reachable from the root, a depth error comes
   with a walk of 65 ids, an unknown id with a walk that reaches it.
   */
  lemma {:induction false} ErrorIsGenuine(layers: seq<Layer>, id: string, path: seq<string>)
    requires |path| <= MAX_INCLUDE_DEPTH && Walk(layers, path + [id])
    requires Resolution(layers, id, path).Err? && GraphError(Resolution(layers, id, path).error)
    ensures exists w :: Shows(layers, w, Resolution(layers, id, path).error) && path + [id] <= w
    decreases MAX_INCLUDE_DEPTH - |path|
  {
    hide Flattened, WithBound, Members, Bindings, Fold, Finished, Edge, Finish;
    var e := Resolution(layers, id, path).error;
    var here := path + [id];
    if id in path {
      var k := IndexOf(path, id);
      assert here[|here| - |e.walk|..] == e.walk;
      assert Shows(layers, here, e);
    } else if |path| == MAX_INCLUDE_DEPTH {
      assert Shows(layers, here, e);
    } else if !Defined(layers, id) {
      assert e == UnknownPermission(id) by { UndefinedIsUnknown(layers, id, path); }
      assert Shows(layers, here, e);
    } else {
      ErrorDescends(layers, id, path);
      var b :| Edge(layers, id, b) && Resolution(layers, b, path + [id]) == Err(e);
      WalkExtends(layers, here, b);
      ErrorIsGenuine(layers, b, here);
      var w :| Shows(layers, w, e) && here + [b] <= w;
      assert here <= w;
    }
  }

  lemma UndefinedIsUnknown(layers: seq<Layer>, id: string, path: seq<string>)
    requires |path| < MAX_INCLUDE_DEPTH && id !in path && !Defined(layers, id)
    ensures Resolution(layers, id, path) == Err(UnknownPermission(id))
  {
  }

  lemma WalkExtends(layers: seq<Layer>, w: seq<string>, b: string)
    requires w != [] && Walk(layers, w) && Edge(layers, w[|w| - 1], b)
    ensures Walk(layers, w + [b])
  {
    hide Edge;
  }

  lemma SoundShowsNothing(layers: seq<Layer>, w: seq<string>, e: CatalogError)
    requires w != [] && |w| <= MAX_INCLUDE_DEPTH
    requires forall i :: 0 <= i < |w| ==> Defined(layers, w[i])
    requires forall i, j :: 0 <= i < j < |w| ==> w[i] != w[j]
    ensures !Shows(layers, w, e)
  {
    hide Edge, Defined;
    if e.Cycle? && 2 <= |e.walk| <= |w| && w[|w| - |e.walk|..] == e.walk {
      assert w[|w| - |e.walk|] == e.walk[0];
      assert w[|w| - 1] == e.walk[|e.walk| - 1];
    }
  }

  /**
   From the top: a graph error is shown by some walk below the id, and after a successful resolve no walk
   below it shows any. (A defective walk may also hide behind another error that is met first.)
   */
  lemma GraphErrorsAreGenuine(layers: seq<Layer>, id: string)
    ensures var r := Resolution(layers, id, []);
            && (r.Err? && GraphError(r.error) ==> exists w :: Shows(layers, w, r.error) && w[0] == id)
            && (r.Ok? ==> forall w, e :: w != [] && w[0] == id ==> !Shows(layers, w, e))
  {
    hide Resolution, Edge, Defined;
    var r := Resolution(layers, id, []);
    if r.Err? && GraphError(r.error) {
      assert [] + [id] == [id];
      ErrorIsGenuine(layers, id, []);
      var w :| Shows(layers, w, r.error) && [] + [id] <= w;
      assert w[0] == id;
    }
    if r.Ok? {
      forall w, e | w != [] && w[0] == id
        ensures !Shows(layers, w, e)
      {
        if Walk(layers, w) {
          WalksAreSound(layers, [], w);
          SoundShowsNothing(layers, w, e);
        }
      }
    }
  }
}
