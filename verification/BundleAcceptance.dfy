/**
 Which bundles resolve: one level of the recursion succeeds exactly when the id
 is new on the path, within the depth bound and recorded, everything it pulls in
 resolves, the constraints that meet agree, literal bindings expand, and the
 bundle does not call itself safer than its members.
 */
module BundleAcceptance {
  import opened Outcomes
  import opened Records
  import opened Constraints
  import opened Templates
  import opened CatalogTypes
  import opened CatalogRecords
  import opened Rendering
  import opened Grants
  import opened Leaf
  import opened Expansion
  import opened Facts
  import opened Resolver
  import opened IncludeGraph
  import opened BundleMeaning
  import opened BundleRisk
  import opened BundleParams
  import opened Acceptance

  // ----- flattened members -----

  /** A name constrained on both sides has one meaning. */
  ghost predicate Agree(a: Rules, b: Rules) {
    forall n :: n in a && n in b ==> Normalized(a[n]) == Normalized(b[n])
  }

  /** The member resolves, without bound members of its own. */
  ghost predicate Plain(layers: seq<Layer>, path: seq<string>, m: string)
    requires |path| <= MAX_INCLUDE_DEPTH
  {
    Resolution(layers, m, path).Ok? && Resolution(layers, m, path).value.bound == []
  }

  function ParamsAt(layers: seq<Layer>, path: seq<string>, m: string): Rules
    requires |path| <= MAX_INCLUDE_DEPTH
  {
    if Resolution(layers, m, path).Ok? then Resolution(layers, m, path).value.params else map[]
  }

  ghost predicate MembersFit(layers: seq<Layer>, path: seq<string>, members: seq<string>, own: Rules)
    requires |path| <= MAX_INCLUDE_DEPTH
  {
    && (forall i :: 0 <= i < |members| ==> Plain(layers, path, members[i]) && Agree(own, ParamsAt(layers, path, members[i])))
    && (forall i, j :: 0 <= i < j < |members| ==> Agree(ParamsAt(layers, path, members[i]), ParamsAt(layers, path, members[j])))
  }

  /** The constraints gathered so far conflict with a member's exactly when one of their sources does. */
  lemma GatheredAgree(layers: seq<Layer>, bundle: string, path: seq<string>, members: seq<string>, start: Acc, r: Rules)
    requires |path| <= MAX_INCLUDE_DEPTH && Flattened(layers, bundle, path, members, start).Ok?
    ensures Agree(Flattened(layers, bundle, path, members, start).value.params, r) <==>
            Agree(start.params, r) && forall i :: 0 <= i < |members| ==> Agree(ParamsAt(layers, path, members[i]), r)
  {
    hide Resolution, Flattened, Normalized;
    var acc := Flattened(layers, bundle, path, members, start).value;
    forall n
      ensures n in start.params ==> n in acc.params && acc.params[n] == start.params[n]
      ensures forall i :: 0 <= i < |members| && n in ParamsAt(layers, path, members[i]) ==>
                n in acc.params && Normalized(acc.params[n]) == Normalized(ParamsAt(layers, path, members[i])[n])
      ensures n in acc.params && n !in start.params ==> exists i :: 0 <= i < |members| && n in ParamsAt(layers, path, members[i])
    {
      FlattenedMerges(layers, bundle, path, members, start, n);
    }
  }

  lemma MembersFitMore(layers: seq<Layer>, path: seq<string>, members: seq<string>, own: Rules)
    requires |path| <= MAX_INCLUDE_DEPTH && members != []
    ensures var n := |members| - 1;
            MembersFit(layers, path, members, own) <==>
              && MembersFit(layers, path, members[..n], own)
              && Plain(layers, path, members[n]) && Agree(own, ParamsAt(layers, path, members[n]))
              && forall i :: 0 <= i < n ==> Agree(ParamsAt(layers, path, members[..n][i]), ParamsAt(layers, path, members[n]))
  {
    hide Plain, ParamsAt, Agree;
    var n := |members| - 1;
    assert forall i :: 0 <= i < n ==> members[..n][i] == members[i];
  }

  lemma {:induction false} FlattenedOkIff(layers: seq<Layer>, bundle: string, path: seq<string>, members: seq<string>, start: Acc)
    requires |path| <= MAX_INCLUDE_DEPTH
    ensures Flattened(layers, bundle, path, members, start).Ok? <==> MembersFit(layers, path, members, start.params)
    decreases |members|
  {
    if members != [] {
      hide Resolution, Agree, MembersFit, Conflicting;
      var n := |members| - 1;
      FlattenedOkIff(layers, bundle, path, members[..n], start);
      MembersFitMore(layers, path, members, start.params);
      if Flattened(layers, bundle, path, members[..n], start).Ok? && Resolution(layers, members[n], path).Ok? {
        var acc, r := Flattened(layers, bundle, path, members[..n], start).value, Resolution(layers, members[n], path).value;
        GatheredAgree(layers, bundle, path, members[..n], start, r.params);
        ConflictIff(acc.params, r.params);
      }
    }
  }

  lemma ConflictIff(a: Rules, b: Rules)
    ensures Conflicting(a, b) <==> !Agree(a, b)
  {
    hide Normalized;
  }

  // ----- bound members -----

  ghost predicate BindingFits(layers: seq<Layer>, bundle: string, path: seq<string>, inc: Include)
    requires |path| <= MAX_INCLUDE_DEPTH
  {
    && Plain(layers, path, inc.id)
    && (AllLiteral(inc.bindings) ==> TakesMember(bundle, BoundMember(inc, Resolution(layers, inc.id, path).value), map[], map[]))
  }

  lemma {:induction false} WithBoundOkIff(layers: seq<Layer>, bundle: string, path: seq<string>, incs: seq<Include>, start: Acc)
    requires |path| <= MAX_INCLUDE_DEPTH
    ensures WithBound(layers, bundle, path, incs, start).Ok? <==> forall i :: 0 <= i < |incs| ==> BindingFits(layers, bundle, path, incs[i])
    decreases |incs|
  {
    hide Resolution, Expanded, TakesMember, Deferred, AllLiteral;
    if incs != [] {
      var n := |incs| - 1;
      assert forall i :: 0 <= i < n ==> incs[..n][i] == incs[i];
      WithBoundOkIff(layers, bundle, path, incs[..n], start);
      LiteralIsNotDeferred(incs[n]);
      if Resolution(layers, incs[n].id, path).Ok? {
        ExpandedOkIff(bundle, BoundMember(incs[n], Resolution(layers, incs[n].id, path).value), map[], map[]);
      }
    }
  }

  // ----- the risk label -----

  lemma FinishOkIff(layers: seq<Layer>, id: string, own: ResolvedPermission, acc: Acc, members: seq<Option<Risk>>)
    requires Tallied(acc.known, acc.unknown, members)
    ensures Finish(layers, id, own, acc).Ok? <==>
            !(own.risk == Some(Contained) && exists i :: 0 <= i < |members| && members[i] != Some(Contained))
  {
    assert forall i :: 0 <= i < |members| ==> members[i] in members;
    forall i | 0 <= i < |members|
      ensures members[i].None? || members[i] == Some(Contained) || members[i] == Some(EscalationCapable)
    {
      ThreeLabels(members[i]);
    }
    ThreeLabels(acc.known);
  }

  // ----- one level -----

  /** Everything a permission pulls in fits, told by the records. */
  ghost predicate Fits(layers: seq<Layer>, id: string, path: seq<string>)
    requires |path| <= MAX_INCLUDE_DEPTH
  {
    && (forall b :: Edge(layers, id, b) ==> Plain(layers, path, b))
    && (forall m :: Flattens(layers, id, m) ==> Agree(Fold(Stated(layers, id)).params, ParamsAt(layers, path, m)))
    && (forall m, k :: Flattens(layers, id, m) && Flattens(layers, id, k) ==> Agree(ParamsAt(layers, path, m), ParamsAt(layers, path, k)))
    && (forall inc :: TakesBound(layers, id, inc) && AllLiteral(inc.bindings) && Resolution(layers, inc.id, path).Ok? ==>
          TakesMember(id, BoundMember(inc, Resolution(layers, inc.id, path).value), map[], map[]))
    && !(Declared(layers, id) == Some(Contained) && exists b :: Edge(layers, id, b) && RiskAt(layers, path, b) != Some(Contained))
  }

  lemma MembersFitIff(layers: seq<Layer>, id: string, path: seq<string>, own: Rules)
    requires |path| <= MAX_INCLUDE_DEPTH
    ensures MembersFit(layers, path, Members(layers, id), own) <==>
            && (forall m :: Flattens(layers, id, m) ==> Plain(layers, path, m) && Agree(own, ParamsAt(layers, path, m)))
            && (forall m, k :: Flattens(layers, id, m) && Flattens(layers, id, k) ==> Agree(ParamsAt(layers, path, m), ParamsAt(layers, path, k)))
  {
    hide Members, Flattens, Plain, Agree, ParamsAt;
    var ms := Members(layers, id);
    forall m ensures m in ms <==> Flattens(layers, id, m) { MembersExactly(layers, id, m); }
    if MembersFit(layers, path, ms, own) {
      forall m | Flattens(layers, id, m) ensures Plain(layers, path, m) && Agree(own, ParamsAt(layers, path, m)) {
        var i :| 0 <= i < |ms| && ms[i] == m;
      }
      forall m, k | Flattens(layers, id, m) && Flattens(layers, id, k) ensures Agree(ParamsAt(layers, path, m), ParamsAt(layers, path, k)) {
        var i :| 0 <= i < |ms| && ms[i] == m;
        var j :| 0 <= j < |ms| && ms[j] == k;
        AgreeBothWays(ParamsAt(layers, path, m), ParamsAt(layers, path, k));
        AgreeSelf(ParamsAt(layers, path, m));
        if j < i { assert Agree(ParamsAt(layers, path, ms[j]), ParamsAt(layers, path, ms[i])); }
      }
    }
    if forall m :: Flattens(layers, id, m) ==> Plain(layers, path, m) && Agree(own, ParamsAt(layers, path, m)) {
      forall i | 0 <= i < |ms| ensures Plain(layers, path, ms[i]) && Agree(own, ParamsAt(layers, path, ms[i])) { assert ms[i] in ms; }
    }
    if forall m, k :: Flattens(layers, id, m) && Flattens(layers, id, k) ==> Agree(ParamsAt(layers, path, m), ParamsAt(layers, path, k)) {
      forall i, j | 0 <= i < j < |ms| ensures Agree(ParamsAt(layers, path, ms[i]), ParamsAt(layers, path, ms[j])) { assert ms[i] in ms && ms[j] in ms; }
    }
  }

  lemma AgreeBothWays(a: Rules, b: Rules)
    ensures Agree(a, b) <==> Agree(b, a)
  {
  }

  lemma AgreeSelf(a: Rules)
    ensures Agree(a, a)
  {
  }

  lemma BindingsFitIff(layers: seq<Layer>, id: string, path: seq<string>)
    requires |path| <= MAX_INCLUDE_DEPTH
    ensures (forall i :: 0 <= i < |Bindings(layers, id)| ==> BindingFits(layers, id, path, Bindings(layers, id)[i])) <==>
            forall inc :: TakesBound(layers, id, inc) ==> BindingFits(layers, id, path, inc)
  {
    hide Bindings, TakesBound, BindingFits;
    var bs := Bindings(layers, id);
    forall inc ensures inc in bs <==> TakesBound(layers, id, inc) { BindingsExactly(layers, id, inc); }
    if forall i :: 0 <= i < |bs| ==> BindingFits(layers, id, path, bs[i]) {
      forall inc | TakesBound(layers, id, inc) ensures BindingFits(layers, id, path, inc) {
        var i :| 0 <= i < |bs| && bs[i] == inc;
      }
    }
    if forall inc :: TakesBound(layers, id, inc) ==> BindingFits(layers, id, path, inc) {
      forall i | 0 <= i < |bs| ensures BindingFits(layers, id, path, bs[i]) { assert bs[i] in bs; }
    }
  }

  /** What both phases of a bundle accept, together. */
  lemma PhasesFitIff(layers: seq<Layer>, id: string, path: seq<string>, own: Rules)
    requires |path| <= MAX_INCLUDE_DEPTH
    ensures && MembersFit(layers, path, Members(layers, id), own)
            && (forall i :: 0 <= i < |Bindings(layers, id)| ==> BindingFits(layers, id, path, Bindings(layers, id)[i]))
            <==>
            && (forall b :: Edge(layers, id, b) ==> Plain(layers, path, b))
            && (forall m :: Flattens(layers, id, m) ==> Agree(own, ParamsAt(layers, path, m)))
            && (forall m, k :: Flattens(layers, id, m) && Flattens(layers, id, k) ==> Agree(ParamsAt(layers, path, m), ParamsAt(layers, path, k)))
            && (forall inc :: TakesBound(layers, id, inc) && AllLiteral(inc.bindings) && Resolution(layers, inc.id, path).Ok? ==>
                  TakesMember(id, BoundMember(inc, Resolution(layers, inc.id, path).value), map[], map[]))
  {
    hide Members, Bindings, MembersFit, Flattens, TakesBound, Agree, ParamsAt, Resolution, TakesMember, AllLiteral;
    MembersFitIff(layers, id, path, own);
    BindingsFitIff(layers, id, path);
  }

  /** A bundle resolves, one level down, exactly when it fits. */
  lemma BundleAcceptedIff(layers: seq<Layer>, id: string, path: seq<string>)
    requires |path| <= MAX_INCLUDE_DEPTH
    ensures Resolution(layers, id, path).Ok? <==>
            id !in path && |path| < MAX_INCLUDE_DEPTH && Defined(layers, id) && Fits(layers, id, path + [id])
  {
    hide Flattened, WithBound, Finish, Members, Bindings, IsLeaf, Fold, Finished, Fits, Defined;
    if id !in path && |path| < MAX_INCLUDE_DEPTH && Defined(layers, id) {
      if IsLeaf(layers, id) {
        LeafFits(layers, id, path + [id]);
      } else {
        var own := LeafOf(layers, id).value;
        BundleLevel(layers, id, path, own);
      }
    }
  }

  lemma LeafFits(layers: seq<Layer>, id: string, path: seq<string>)
    requires |path| <= MAX_INCLUDE_DEPTH && IsLeaf(layers, id)
    ensures Fits(layers, id, path)
  {
    hide Edge, IsLeaf, Resolution, Flattens, TakesBound, TakesMember, Agree;
    forall b ensures !Edge(layers, id, b) { LeafHasNoEdge(layers, id, b); }
    forall m ensures !Flattens(layers, id, m) { NoEdgeNoMember(layers, id, m); }
    forall inc ensures !TakesBound(layers, id, inc) { NoEdgeNoBinding(layers, id, inc); }
  }

  lemma NoEdgeNoMember(layers: seq<Layer>, id: string, m: string)
    requires !Edge(layers, id, m)
    ensures !Flattens(layers, id, m)
  {
    hide Flattens, TakesBound;
  }

  lemma NoEdgeNoBinding(layers: seq<Layer>, id: string, inc: Include)
    requires !Edge(layers, id, inc.id)
    ensures !TakesBound(layers, id, inc)
  {
    hide Flattens, TakesBound;
  }

  lemma BundleLevel(layers: seq<Layer>, id: string, path: seq<string>, own: ResolvedPermission)
    requires |path| < MAX_INCLUDE_DEPTH && LeafOf(layers, id) == Ok(own)
    ensures var below := path + [id];
            var flat := Flattened(layers, id, below, Members(layers, id), Start(own));
            (&& flat.Ok? && WithBound(layers, id, below, Bindings(layers, id), flat.value).Ok?
             && Finish(layers, id, own, WithBound(layers, id, below, Bindings(layers, id), flat.value).value).Ok?)
            <==> Fits(layers, id, below)
  {
    hide Flattened, WithBound, Finish, Members, Bindings, MembersFit, BindingFits, Edge, Flattens, TakesBound, TakesMember, Agree, Resolution, Tallied, Plain, RiskAt, AllLiteral, ParamsAt;
    var below := path + [id];
    var flat := Flattened(layers, id, below, Members(layers, id), Start(own));
    LeafIsOwn(layers, id, own);
    FlattenedOkIff(layers, id, below, Members(layers, id), Start(own));
    if flat.Ok? {
      WithBoundOkIff(layers, id, below, Bindings(layers, id), flat.value);
    }
    PhasesFitIff(layers, id, below, own.params);
    if flat.Ok? && WithBound(layers, id, below, Bindings(layers, id), flat.value).Ok? {
      RiskFits(layers, id, path, own, flat.value);
    }
  }

  lemma LeafIsOwn(layers: seq<Layer>, id: string, own: ResolvedPermission)
    requires LeafOf(layers, id) == Ok(own)
    ensures own.params == Fold(Stated(layers, id)).params && own.risk == Declared(layers, id)
  {
    hide Fold, Stated, Union;
  }

  lemma RiskFits(layers: seq<Layer>, id: string, path: seq<string>, own: ResolvedPermission, flat: Acc)
    requires |path| < MAX_INCLUDE_DEPTH && LeafOf(layers, id) == Ok(own)
    requires Flattened(layers, id, path + [id], Members(layers, id), Start(own)) == Ok(flat)
    requires WithBound(layers, id, path + [id], Bindings(layers, id), flat).Ok?
    ensures Finish(layers, id, own, WithBound(layers, id, path + [id], Bindings(layers, id), flat).value).Ok? <==>
            !(Declared(layers, id) == Some(Contained) && exists b :: Edge(layers, id, b) && RiskAt(layers, path + [id], b) != Some(Contained))
  {
    hide Flattened, WithBound, Finish, Members, Bindings, Edge, Tallied, RiskAt, Risks, Resolution;
    LeafIsOwn(layers, id, own);
    FlattenedTally(layers, id, path + [id], Members(layers, id), Start(own));
    WithBoundTally(layers, id, path + [id], Bindings(layers, id), flat, Risks(layers, path + [id], Members(layers, id)));
    var rs := EdgeRisks(layers, id, path);
    FinishOkIff(layers, id, own, WithBound(layers, id, path + [id], Bindings(layers, id), flat).value, rs);
    if i :| 0 <= i < |rs| && rs[i] != Some(Contained) {
      var b := RiskHasEdge(layers, id, path, i);
    }
    if b :| Edge(layers, id, b) && RiskAt(layers, path + [id], b) != Some(Contained) {
      var i := EdgeHasRisk(layers, id, path, b);
    }
  }

  // ----- limits -----

  /** The first member with limits gives them. */
  ghost predicate FirstLimits(layers: seq<Layer>, path: seq<string>, members: seq<string>, limits: Option<Limits>)
    requires |path| <= MAX_INCLUDE_DEPTH
  {
    if limits.None? then forall i :: 0 <= i < |members| ==> LimitsAt(layers, path, members[i]).None?
    else exists i :: 0 <= i < |members| && LimitsAt(layers, path, members[i]) == limits
                     && forall j :: 0 <= j < i ==> LimitsAt(layers, path, members[j]).None?
  }

  function LimitsAt(layers: seq<Layer>, path: seq<string>, m: string): Option<Limits>
    requires |path| <= MAX_INCLUDE_DEPTH
  {
    if Resolution(layers, m, path).Ok? then Resolution(layers, m, path).value.limits else None
  }

  lemma {:induction false} FlattenedLimits(layers: seq<Layer>, bundle: string, path: seq<string>, members: seq<string>, start: Acc)
    requires |path| <= MAX_INCLUDE_DEPTH && Flattened(layers, bundle, path, members, start).Ok?
    ensures var limits := Flattened(layers, bundle, path, members, start).value.limits;
            if start.limits.Some? then limits == start.limits else FirstLimits(layers, path, members, limits)
    decreases |members|
  {
    hide Resolution, Conflicting;
    if members != [] {
      var n := |members| - 1;
      assert forall i :: 0 <= i < n ==> members[..n][i] == members[i];
      FlattenedLimits(layers, bundle, path, members[..n], start);
      MemberResolves(layers, bundle, path, members, start, n);
    }
  }

  lemma {:induction false} BoundKeepsLimits(layers: seq<Layer>, bundle: string, path: seq<string>, incs: seq<Include>, start: Acc)
    requires |path| <= MAX_INCLUDE_DEPTH && WithBound(layers, bundle, path, incs, start).Ok?
    ensures WithBound(layers, bundle, path, incs, start).value.limits == start.limits
    decreases |incs|
  {
    hide Resolution, Expanded, Deferred;
    if incs != [] { BoundKeepsLimits(layers, bundle, path, incs[..|incs| - 1], start); }
  }

  /** A bundle's limits are its own, or those of the first flattened member that has any. */
  lemma BundleLimits(layers: seq<Layer>, id: string, path: seq<string>)
    requires |path| < MAX_INCLUDE_DEPTH && Resolution(layers, id, path).Ok? && !IsLeaf(layers, id)
    ensures var limits := Resolution(layers, id, path).value.limits;
            var own := Fold(Stated(layers, id)).limits;
            if own.Some? then limits == own else FirstLimits(layers, path + [id], Members(layers, id), limits)
  {
    hide Flattened, WithBound, Members, Bindings, IsLeaf, Fold, Stated, Resolution, FirstLimits, Union;
    Anatomy(layers, id, path);
    var own := LeafOf(layers, id).value;
    var start := Start(own);
    FlattenedLimits(layers, id, path + [id], Members(layers, id), start);
    BoundKeepsLimits(layers, id, path + [id], Bindings(layers, id), Flattened(layers, id, path + [id], Members(layers, id), start).value);
  }
}
