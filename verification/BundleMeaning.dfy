/** What a resolved bundle means: its grants, its risk and its constraints (src/catalog.rs). */
module BundleMeaning {
  import opened Outcomes
  import opened Records
  import opened Constraints
  import opened Templates
  import opened CatalogTypes
  import opened CatalogRecords
  import opened Rendering
  import opened Grants
  import opened Leaf
  import opened Expansion
  import opened Facts
  import opened Resolver
  import opened IncludeGraph

  // ----- the declarative meaning -----

  ghost predicate LeafSays(layers: seq<Layer>, id: string, f: Fact) {
    LeafOf(layers, id).Ok? && Granted(Of(LeafOf(layers, id).value), f)
  }

  /**
   `f` is granted by `id` through at most `n` include steps: by its own records, by a flattened
   member, or by a member whose literal bindings fill one of that member's facts.
   */
  ghost predicate Derives(layers: seq<Layer>, id: string, f: Fact, n: nat)
    decreases n
  {
    || LeafSays(layers, id, f)
    || (n > 0 && exists m :: Flattens(layers, id, m) && Derives(layers, m, f, n - 1))
    || (n > 0 && exists inc, f0 :: TakesBound(layers, id, inc) && AllLiteral(inc.bindings)
                                  && Derives(layers, inc.id, f0, n - 1)
                                  && f == FactAt(f0, Literal(inc.bindings), 0))
  }

  /** No binding mentions a parameter. */
  predicate AllLiteral(bindings: seq<Binding>) {
    forall i :: 0 <= i < |bindings| ==> Placeholders(bindings[i].template) == []
  }

  lemma LiteralIsNotDeferred(inc: Include)
    ensures AllLiteral(inc.bindings) <==> !Deferred(inc)
  {
    hide Placeholders;
  }

  /** The fact has some derivation. */
  ghost predicate Contributed(layers: seq<Layer>, id: string, f: Fact) { exists n :: Derives(layers, id, f, n) }

  // ----- one level -----

  ghost predicate MemberSays(layers: seq<Layer>, m: string, path: seq<string>, f: Fact)
    requires |path| <= MAX_INCLUDE_DEPTH
  {
    Resolution(layers, m, path).Ok? && Granted(Of(Resolution(layers, m, path).value), f)
  }

  ghost predicate BindingSays(layers: seq<Layer>, inc: Include, path: seq<string>, f: Fact)
    requires |path| <= MAX_INCLUDE_DEPTH
  {
    && !Deferred(inc) && Resolution(layers, inc.id, path).Ok?
    && FilledBy(Of(Resolution(layers, inc.id, path).value), Literal(inc.bindings), f)
  }

  lemma {:induction false} FlattenedGrants(layers: seq<Layer>, bundle: string, path: seq<string>, members: seq<string>, start: Acc, f: Fact)
    requires |path| <= MAX_INCLUDE_DEPTH && Flattened(layers, bundle, path, members, start).Ok?
    ensures Granted(Flattened(layers, bundle, path, members, start).value.prims, f)
       <==> Granted(start.prims, f) || exists m :: m in members && MemberSays(layers, m, path, f)
    decreases |members|
  {
    hide Resolution, Granted, Conflicting;
    if members != [] {
      var n := |members| - 1;
      FlattenedGrants(layers, bundle, path, members[..n], start, f);
      MemberResolves(layers, bundle, path, members, start, n);
      var r := Resolution(layers, members[n], path).value;
      JoinedGrants(Flattened(layers, bundle, path, members[..n], start).value.prims, Of(r), f);
      assert MemberSays(layers, members[n], path, f) <==> Granted(Of(r), f);
      assert forall m :: m in members <==> m in members[..n] || m == members[n];
    }
  }

  lemma {:induction false} WithBoundGrants(layers: seq<Layer>, bundle: string, path: seq<string>, incs: seq<Include>, start: Acc, f: Fact)
    requires |path| <= MAX_INCLUDE_DEPTH && WithBound(layers, bundle, path, incs, start).Ok?
    ensures Granted(WithBound(layers, bundle, path, incs, start).value.prims, f)
       <==> Granted(start.prims, f) || exists i :: 0 <= i < |incs| && BindingSays(layers, incs[i], path, f)
    decreases |incs|
  {
    hide Resolution, Granted, Expanded, Literal, FilledBy, HasPlaceholder, Of, Fanned;
    if incs != [] {
      var n := |incs| - 1;
      WithBoundGrants(layers, bundle, path, incs[..n], start, f);
      BindingResolves(layers, bundle, path, incs, start, n);
      var r := Resolution(layers, incs[n].id, path).value;
      assert forall i :: 0 <= i < n ==> incs[..n][i] == incs[i];
      if !Deferred(incs[n]) {
        var e := Expanded(bundle, BoundMember(incs[n], r), map[], map[]);
        JoinedGrants(WithBound(layers, bundle, path, incs[..n], start).value.prims, e.value, f);
        LiteralExpansion(bundle, BoundMember(incs[n], r), f);
      }
    }
  }

  /** One level of a resolve: own records, flattened members, literally bound members; nothing else. */
  lemma ResolutionGrants(layers: seq<Layer>, id: string, path: seq<string>, f: Fact)
    requires |path| < MAX_INCLUDE_DEPTH && Resolution(layers, id, path).Ok?
    ensures Granted(Of(Resolution(layers, id, path).value), f)
       <==> || LeafSays(layers, id, f)
            || (exists m :: m in Members(layers, id) && MemberSays(layers, m, path + [id], f))
            || (exists i :: 0 <= i < |Bindings(layers, id)| && BindingSays(layers, Bindings(layers, id)[i], path + [id], f))
  {
    hide Flattened, WithBound, LeafOf, Granted, MemberSays, BindingSays;
    if IsLeaf(layers, id) {
      assert Members(layers, id) == [] && Bindings(layers, id) == [];
      LeafResolves(layers, id, path);
    } else {
      hide Resolution, Members, Bindings, IsLeaf;
      Anatomy(layers, id, path);
      var start := Start(LeafOf(layers, id).value);
      var flat := Flattened(layers, id, path + [id], Members(layers, id), start);
      FlattenedGrants(layers, id, path + [id], Members(layers, id), start, f);
      WithBoundGrants(layers, id, path + [id], Bindings(layers, id), flat.value, f);
    }
  }

  lemma LeafResolves(layers: seq<Layer>, id: string, path: seq<string>)
    requires |path| <= MAX_INCLUDE_DEPTH && Resolution(layers, id, path).Ok? && IsLeaf(layers, id)
    ensures Resolution(layers, id, path) == LeafOf(layers, id)
  {
    hide LeafOf, IsLeaf;
  }

  // ----- all levels -----

  lemma {:induction false} DerivedIsGranted(layers: seq<Layer>, id: string, path: seq<string>, f: Fact, n: nat)
    requires |path| <= MAX_INCLUDE_DEPTH && Resolution(layers, id, path).Ok? && Derives(layers, id, f, n)
    ensures Granted(Of(Resolution(layers, id, path).value), f)
    decreases n
  {
    hide Resolution, Members, Bindings, LeafSays, Granted, Literal, FactAt, Deferred, Flattens, TakesBound, AllLiteral;
    RootResolves(layers, id, path);
    ResolutionGrants(layers, id, path, f);
    if LeafSays(layers, id, f) {
    } else if exists m :: Flattens(layers, id, m) && Derives(layers, m, f, n - 1) {
      var m :| Flattens(layers, id, m) && Derives(layers, m, f, n - 1);
      MembersExactly(layers, id, m);
      EdgeResolves(layers, id, path, m);
      DerivedIsGranted(layers, m, path + [id], f, n - 1);
      assert MemberSays(layers, m, path + [id], f);
    } else {
      var inc, f0 :| TakesBound(layers, id, inc) && AllLiteral(inc.bindings)
                     && Derives(layers, inc.id, f0, n - 1) && f == FactAt(f0, Literal(inc.bindings), 0);
      BindingsExactly(layers, id, inc);
      LiteralIsNotDeferred(inc);
      var i :| 0 <= i < |Bindings(layers, id)| && Bindings(layers, id)[i] == inc;
      assert Edge(layers, id, inc.id);
      EdgeResolves(layers, id, path, inc.id);
      DerivedIsGranted(layers, inc.id, path + [id], f0, n - 1);
      assert BindingSays(layers, Bindings(layers, id)[i], path + [id], f);
    }
  }

  lemma {:induction false} GrantedIsDerived(layers: seq<Layer>, id: string, path: seq<string>, f: Fact)
    requires |path| <= MAX_INCLUDE_DEPTH && Resolution(layers, id, path).Ok?
    requires Granted(Of(Resolution(layers, id, path).value), f)
    ensures Derives(layers, id, f, MAX_INCLUDE_DEPTH - |path|)
    decreases MAX_INCLUDE_DEPTH - |path|
  {
    hide Resolution, Members, Bindings, LeafSays, Granted, Literal, FactAt, Deferred, Flattens, TakesBound, AllLiteral;
    RootResolves(layers, id, path);
    ResolutionGrants(layers, id, path, f);
    if LeafSays(layers, id, f) {
    } else if exists m :: m in Members(layers, id) && MemberSays(layers, m, path + [id], f) {
      var m :| m in Members(layers, id) && MemberSays(layers, m, path + [id], f);
      MembersExactly(layers, id, m);
      GrantedIsDerived(layers, m, path + [id], f);
    } else {
      var i :| 0 <= i < |Bindings(layers, id)| && BindingSays(layers, Bindings(layers, id)[i], path + [id], f);
      var inc := Bindings(layers, id)[i];
      var f0 :| Granted(Of(Resolution(layers, inc.id, path + [id]).value), f0) && f == FactAt(f0, Literal(inc.bindings), 0);
      BindingsExactly(layers, id, inc);
      LiteralIsNotDeferred(inc);
      GrantedIsDerived(layers, inc.id, path + [id], f0);
    }
  }

  /** A resolved permission grants exactly what its records and its members', transitively, grant. */
  lemma BundleMeansItsMembers(layers: seq<Layer>, id: string, f: Fact)
    requires Resolution(layers, id, []).Ok?
    ensures Granted(Of(Resolution(layers, id, []).value), f) <==> Contributed(layers, id, f)
  {
    hide Resolution, Granted, Derives;
    if Granted(Of(Resolution(layers, id, []).value), f) {
      GrantedIsDerived(layers, id, [], f);
    }
    if n :| Derives(layers, id, f, n) {
      DerivedIsGranted(layers, id, [], f, n);
    }
  }

  // ----- file entries -----

  lemma {:induction false} CopiedShaped(owner: string, p: Primitives, copies: seq<Params>, rules: Rules)
    requires Copied(owner, p, copies, rules).Ok?
    ensures WellShaped(Copied(owner, p, copies, rules).value.files)
    decreases |copies|
  {
    hide Substituted;
    if copies != [] {
      CopiedShaped(owner, p, copies[..|copies| - 1], rules);
      SubstitutedGrants(owner, p, copies[|copies| - 1], rules, InGroup(""));
    }
  }

  lemma ExpandedShaped(bundle: string, b: BoundMember, params: Params, rules: Rules)
    requires Expanded(bundle, b, params, rules).Ok?
    ensures WellShaped(Expanded(bundle, b, params, rules).value.files)
  {
    hide Copied, Fanned;
    CopiedShaped(b.edge.id, Of(b.member), Fanned(bundle, b.edge.bindings, params, rules).value, b.member.params);
  }

  predicate Sound(files: seq<ResolvedGrant>) { UniquePaths(files) && WellShaped(files) }

  lemma {:induction false} FlattenedSound(layers: seq<Layer>, bundle: string, path: seq<string>, members: seq<string>, start: Acc)
    requires |path| <= MAX_INCLUDE_DEPTH && Flattened(layers, bundle, path, members, start).Ok? && Sound(start.prims.files)
    ensures Sound(Flattened(layers, bundle, path, members, start).value.prims.files)
    decreases MAX_INCLUDE_DEPTH - |path|, 1 + |members|
  {
    hide Resolution, Union, UniquePaths, WellShaped, Conflicting;
    if members != [] {
      var n := |members| - 1;
      FlattenedSound(layers, bundle, path, members[..n], start);
      MemberResolves(layers, bundle, path, members, start, n);
      FilesAreSound(layers, members[n], path);
      UnionKeeps(Flattened(layers, bundle, path, members[..n], start).value.prims.files, Resolution(layers, members[n], path).value.files);
    }
  }

  lemma {:induction false} WithBoundSound(layers: seq<Layer>, bundle: string, path: seq<string>, incs: seq<Include>, start: Acc)
    requires |path| <= MAX_INCLUDE_DEPTH && WithBound(layers, bundle, path, incs, start).Ok? && Sound(start.prims.files)
    ensures Sound(WithBound(layers, bundle, path, incs, start).value.prims.files)
    decreases |incs|
  {
    hide Resolution, Union, UniquePaths, WellShaped, Expanded, Deferred;
    if incs != [] {
      var n := |incs| - 1;
      WithBoundSound(layers, bundle, path, incs[..n], start);
      BindingResolves(layers, bundle, path, incs, start, n);
      var b := BoundMember(incs[n], Resolution(layers, incs[n].id, path).value);
      if !Deferred(incs[n]) {
        ExpandedShaped(bundle, b, map[], map[]);
        UnionKeeps(WithBound(layers, bundle, path, incs[..n], start).value.prims.files, Expanded(bundle, b, map[], map[]).value.files);
      }
    }
  }

  /** Every resolved permission has one entry per path, shaped by its path and its recursion. */
  lemma {:induction false} FilesAreSound(layers: seq<Layer>, id: string, path: seq<string>)
    requires |path| <= MAX_INCLUDE_DEPTH && Resolution(layers, id, path).Ok?
    ensures Sound(Resolution(layers, id, path).value.files)
    decreases MAX_INCLUDE_DEPTH - |path|, 0
  {
    hide Resolution, Flattened, WithBound, LeafOf, Members, Bindings, IsLeaf, UniquePaths, WellShaped;
    RootResolves(layers, id, path);
    LeafIsStamped(layers, id);
    if IsLeaf(layers, id) {
      LeafResolves(layers, id, path);
    } else {
      Anatomy(layers, id, path);
      var start := Start(LeafOf(layers, id).value);
      FlattenedSound(layers, id, path + [id], Members(layers, id), start);
      WithBoundSound(layers, id, path + [id], Bindings(layers, id), Flattened(layers, id, path + [id], Members(layers, id), start).value);
    }
  }

  /** An entry's bits are the union, and its recursion the disjunction, over everything that contributes its path. */
  lemma EntryIsUnionOfContributors(layers: seq<Layer>, id: string, i: nat)
    requires Resolution(layers, id, []).Ok? && i < |Resolution(layers, id, []).value.files|
    ensures var g := Resolution(layers, id, []).value.files[i];
            && (forall b :: b in g.access <==> Contributed(layers, id, OnFile(Bit(g.path, b))))
            && (g.recursive <==> Contributed(layers, id, OnFile(Deep(g.path))))
            && g.shape == ShapeOf(g.path, g.recursive)
  {
    hide Resolution, Contributed, ShapeOf;
    var p := Of(Resolution(layers, id, []).value);
    FilesAreSound(layers, id, []);
    EntryIsUnion(p.files, i);
    var g := p.files[i];
    forall b ensures b in g.access <==> Contributed(layers, id, OnFile(Bit(g.path, b))) {
      BundleMeansItsMembers(layers, id, OnFile(Bit(g.path, b)));
      assert Granted(p, OnFile(Bit(g.path, b))) <==> Holds(p.files, Bit(g.path, b));
    }
    BundleMeansItsMembers(layers, id, OnFile(Deep(g.path)));
    assert Granted(p, OnFile(Deep(g.path))) <==> Holds(p.files, Deep(g.path));
  }
}
