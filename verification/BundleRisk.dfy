/** The risk label of a bundle against everything reachable from it (src/catalog.rs). */
module BundleRisk {
  import opened Outcomes
  import opened CatalogTypes
  import opened Grants
  import opened Leaf
  import opened Expansion
  import opened Resolver
  import opened IncludeGraph
  import opened BundleMeaning

  /** The risk the records themselves state. */
  function Declared(layers: seq<Layer>, id: string): Option<Risk> { Fold(Stated(layers, id)).risk }

  ghost predicate HasMembers(layers: seq<Layer>, id: string) { exists b :: Edge(layers, id, b) }

  lemma ThreeLabels(o: Option<Risk>)
    ensures o.None? || o == Some(Contained) || o == Some(EscalationCapable)
  {
    if o.Some? {
      match o.value
      case Contained =>
      case EscalationCapable =>
    }
  }

  // ----- the accumulators -----

  /** What the two risk accumulators remember of a list of member risks. */
  predicate Tallied(known: Option<Risk>, unknown: bool, risks: seq<Option<Risk>>) {
    && (unknown <==> None in risks)
    && (known.None? <==> forall i :: 0 <= i < |risks| ==> risks[i].None?)
    && (known == Some(EscalationCapable) <==> Some(EscalationCapable) in risks)
  }

  lemma TallyGrows(acc: Acc, risks: seq<Option<Risk>>, r: Option<Risk>)
    requires Tallied(acc.known, acc.unknown, risks)
    ensures Tallied(FoldRisk(acc, r).known, FoldRisk(acc, r).unknown, risks + [r])
  {
    assert forall x :: x in risks + [r] <==> x in risks || x == r;
    assert (risks + [r])[|risks|] == r;
    assert forall i :: 0 <= i < |risks| ==> (risks + [r])[i] == risks[i];
  }

  function RiskAt(layers: seq<Layer>, path: seq<string>, m: string): Option<Risk>
    requires |path| <= MAX_INCLUDE_DEPTH
  {
    if Resolution(layers, m, path).Ok? then Resolution(layers, m, path).value.risk else None
  }

  function Risks(layers: seq<Layer>, path: seq<string>, ids: seq<string>): seq<Option<Risk>>
    requires |path| <= MAX_INCLUDE_DEPTH
  {
    seq(|ids|, i requires 0 <= i < |ids| => RiskAt(layers, path, ids[i]))
  }

  function Ids(incs: seq<Include>): seq<string> { seq(|incs|, i requires 0 <= i < |incs| => incs[i].id) }

  lemma {:induction false} FlattenedTally(layers: seq<Layer>, bundle: string, path: seq<string>, members: seq<string>, start: Acc)
    requires |path| <= MAX_INCLUDE_DEPTH && Flattened(layers, bundle, path, members, start).Ok?
    requires start.known.None? && !start.unknown
    ensures var acc := Flattened(layers, bundle, path, members, start).value;
            Tallied(acc.known, acc.unknown, Risks(layers, path, members))
    decreases |members|
  {
    hide Resolution, Tallied, FoldRisk, Conflicting;
    if members == [] {
      assert Tallied(None, false, []) by { NothingTallied(); }
    } else {
      var n := |members| - 1;
      FlattenedTally(layers, bundle, path, members[..n], start);
      MemberResolves(layers, bundle, path, members, start, n);
      var acc := Flattened(layers, bundle, path, members[..n], start).value;
      TallyGrows(acc, Risks(layers, path, members[..n]), RiskAt(layers, path, members[n]));
      assert Risks(layers, path, members) == Risks(layers, path, members[..n]) + [RiskAt(layers, path, members[n])];
    }
  }

  lemma NothingTallied()
    ensures Tallied(None, false, [])
  {
  }

  lemma {:induction false} WithBoundTally(layers: seq<Layer>, bundle: string, path: seq<string>, incs: seq<Include>, start: Acc, risks: seq<Option<Risk>>)
    requires |path| <= MAX_INCLUDE_DEPTH && WithBound(layers, bundle, path, incs, start).Ok?
    requires Tallied(start.known, start.unknown, risks)
    ensures var acc := WithBound(layers, bundle, path, incs, start).value;
            Tallied(acc.known, acc.unknown, risks + Risks(layers, path, Ids(incs)))
    decreases |incs|
  {
    hide Resolution, Tallied, FoldRisk, Expanded, Deferred;
    if incs == [] {
      assert risks + Risks(layers, path, Ids(incs)) == risks;
    } else {
      var n := |incs| - 1;
      WithBoundTally(layers, bundle, path, incs[..n], start, risks);
      BindingResolves(layers, bundle, path, incs, start, n);
      var acc := WithBound(layers, bundle, path, incs[..n], start).value;
      var before := risks + Risks(layers, path, Ids(incs[..n]));
      TallyGrows(acc, before, RiskAt(layers, path, incs[n].id));
      assert risks + Risks(layers, path, Ids(incs)) == before + [RiskAt(layers, path, incs[n].id)];
    }
  }

  // ----- one level -----

  /** The label of one bundle against the labels of what it directly pulls in. */
  predicate Labelled(declared: Option<Risk>, risk: Option<Risk>, members: seq<Option<Risk>>) {
    && (risk == Some(EscalationCapable) <==> declared == Some(EscalationCapable) || exists i :: 0 <= i < |members| && members[i] != Some(Contained))
    && (risk.None? <==> declared.None? && members == [])
  }

  lemma FinishLabels(layers: seq<Layer>, id: string, own: ResolvedPermission, acc: Acc, members: seq<Option<Risk>>)
    requires Finish(layers, id, own, acc).Ok? && Tallied(acc.known, acc.unknown, members)
    ensures Labelled(own.risk, Finish(layers, id, own, acc).value.risk, members)
  {
    if members != [] { assert members[0] in members; }
    assert forall i :: 0 <= i < |members| ==> members[i] in members;
    forall i | 0 <= i < |members|
      ensures members[i].None? || members[i] == Some(Contained) || members[i] == Some(EscalationCapable)
    {
      ThreeLabels(members[i]);
    }
    ThreeLabels(own.risk);
    ThreeLabels(acc.known);
  }

  lemma ResolutionLabels(layers: seq<Layer>, id: string, path: seq<string>)
    requires |path| < MAX_INCLUDE_DEPTH && Resolution(layers, id, path).Ok?
    ensures Labelled(Declared(layers, id), Resolution(layers, id, path).value.risk,
              Risks(layers, path + [id], Members(layers, id)) + Risks(layers, path + [id], Ids(Bindings(layers, id))))
  {
    hide Flattened, WithBound, Tallied, Labelled, Resolution, Fold, Stated, Finish;
    RootResolves(layers, id, path);
    if IsLeaf(layers, id) {
      LeafResolves(layers, id, path);
      assert Members(layers, id) == [] && Bindings(layers, id) == [];
      assert Risks(layers, path + [id], []) + Risks(layers, path + [id], Ids([])) == [];
      LeafLabels(Declared(layers, id));
    } else {
      hide Members, Bindings, IsLeaf;
      Anatomy(layers, id, path);
      var own := LeafOf(layers, id).value;
      var flat := Flattened(layers, id, path + [id], Members(layers, id), Start(own)).value;
      var all := WithBound(layers, id, path + [id], Bindings(layers, id), flat).value;
      FlattenedTally(layers, id, path + [id], Members(layers, id), Start(own));
      WithBoundTally(layers, id, path + [id], Bindings(layers, id), flat, Risks(layers, path + [id], Members(layers, id)));
      FinishLabels(layers, id, own, all, Risks(layers, path + [id], Members(layers, id)) + Risks(layers, path + [id], Ids(Bindings(layers, id))));
    }
  }

  lemma LeafLabels(declared: Option<Risk>)
    ensures Labelled(declared, declared, [])
  {
  }

  /** The same, told along include edges. */
  lemma EdgeLabels(layers: seq<Layer>, id: string, path: seq<string>)
    requires |path| < MAX_INCLUDE_DEPTH && Resolution(layers, id, path).Ok?
    ensures var risk := Resolution(layers, id, path).value.risk;
            && (risk == Some(EscalationCapable) <==>
                  Declared(layers, id) == Some(EscalationCapable) || exists b :: Edge(layers, id, b) && RiskAt(layers, path + [id], b) != Some(Contained))
            && (risk.None? <==> Declared(layers, id).None? && !HasMembers(layers, id))
  {
    hide Resolution, Declared, Members, Bindings, Edge, Risks, RiskAt;
    ResolutionLabels(layers, id, path);
    var rs := EdgeRisks(layers, id, path);
    if i :| 0 <= i < |rs| && rs[i] != Some(Contained) {
      var b := RiskHasEdge(layers, id, path, i);
    }
    if b :| Edge(layers, id, b) && RiskAt(layers, path + [id], b) != Some(Contained) {
      var i := EdgeHasRisk(layers, id, path, b);
    }
    MembersHaveRisks(layers, id, path);
  }

  /** The labels of everything a bundle directly pulls in. */
  ghost function EdgeRisks(layers: seq<Layer>, id: string, path: seq<string>): seq<Option<Risk>>
    requires |path| < MAX_INCLUDE_DEPTH
  {
    Risks(layers, path + [id], Members(layers, id)) + Risks(layers, path + [id], Ids(Bindings(layers, id)))
  }

  lemma EdgeHasRisk(layers: seq<Layer>, id: string, path: seq<string>, b: string) returns (i: nat)
    requires |path| < MAX_INCLUDE_DEPTH && Edge(layers, id, b)
    ensures i < |EdgeRisks(layers, id, path)| && EdgeRisks(layers, id, path)[i] == RiskAt(layers, path + [id], b)
  {
    hide Members, Bindings, RiskAt, Edge;
    EdgeIs(layers, id, b);
    var ms, bs := Members(layers, id), Bindings(layers, id);
    if b in ms {
      i :| 0 <= i < |ms| && ms[i] == b;
    } else {
      var k :| 0 <= k < |bs| && bs[k].id == b;
      i := |ms| + k;
    }
  }

  lemma RiskHasEdge(layers: seq<Layer>, id: string, path: seq<string>, i: nat) returns (b: string)
    requires |path| < MAX_INCLUDE_DEPTH && i < |EdgeRisks(layers, id, path)|
    ensures Edge(layers, id, b) && RiskAt(layers, path + [id], b) == EdgeRisks(layers, id, path)[i]
  {
    hide Members, Bindings, RiskAt, Edge;
    var ms, bs := Members(layers, id), Bindings(layers, id);
    b := if i < |ms| then ms[i] else bs[i - |ms|].id;
    EdgeIs(layers, id, b);
  }

  lemma MembersHaveRisks(layers: seq<Layer>, id: string, path: seq<string>)
    requires |path| < MAX_INCLUDE_DEPTH
    ensures EdgeRisks(layers, id, path) == [] <==> !HasMembers(layers, id)
  {
    hide Edge, EdgeRisks;
    if EdgeRisks(layers, id, path) != [] {
      var b := RiskHasEdge(layers, id, path, 0);
    }
    if b :| Edge(layers, id, b) {
      var i := EdgeHasRisk(layers, id, path, b);
    }
  }

  // ----- all levels -----

  /** A walk from the bundle to a record that makes it escalation-capable: labelled so, or a member nobody labelled. */
  ghost predicate Exposes(layers: seq<Layer>, w: seq<string>) {
    && w != [] && Walk(layers, w)
    && (|| Declared(layers, w[|w| - 1]) == Some(EscalationCapable)
        || (|w| > 1 && !HasMembers(layers, w[|w| - 1]) && Declared(layers, w[|w| - 1]).None?))
  }

  lemma {:induction false} ExposedIsLabelled(layers: seq<Layer>, path: seq<string>, w: seq<string>)
    requires |path| < MAX_INCLUDE_DEPTH && Exposes(layers, w) && Resolution(layers, w[0], path).Ok?
    ensures Resolution(layers, w[0], path).value.risk == Some(EscalationCapable)
    decreases |w|
  {
    hide Resolution, Declared, Edge, HasMembers;
    EdgeLabels(layers, w[0], path);
    if |w| > 1 {
      assert Edge(layers, w[0], w[1]);
      EdgeResolves(layers, w[0], path, w[1]);
      RootResolves(layers, w[1], path + [w[0]]);
      WalkTail(layers, w);
      EdgeLabels(layers, w[1], path + [w[0]]);
      if |w| > 2 || Declared(layers, w[|w| - 1]) == Some(EscalationCapable) {
        ExposedIsLabelled(layers, path + [w[0]], w[1..]);
      }
      assert RiskAt(layers, path + [w[0]], w[1]) != Some(Contained);
    }
  }

  lemma {:induction false} LabelledIsExposed(layers: seq<Layer>, id: string, path: seq<string>)
    requires |path| < MAX_INCLUDE_DEPTH && Resolution(layers, id, path).Ok?
    requires Resolution(layers, id, path).value.risk == Some(EscalationCapable)
    ensures exists w :: Exposes(layers, w) && w[0] == id
    decreases MAX_INCLUDE_DEPTH - |path|
  {
    hide Resolution, Declared, Edge, HasMembers;
    EdgeLabels(layers, id, path);
    if Declared(layers, id) == Some(EscalationCapable) {
      assert Exposes(layers, [id]);
    } else {
      var b :| Edge(layers, id, b) && RiskAt(layers, path + [id], b) != Some(Contained);
      EdgeResolves(layers, id, path, b);
      RootResolves(layers, b, path + [id]);
      EdgeLabels(layers, b, path + [id]);
      if RiskAt(layers, path + [id], b).None? {
        assert Exposes(layers, [id, b]);
      } else {
        ThreeLabels(RiskAt(layers, path + [id], b));
        LabelledIsExposed(layers, b, path + [id]);
        var w :| Exposes(layers, w) && w[0] == b;
        ExposesExtends(layers, id, w);
      }
    }
  }

  lemma ExposesExtends(layers: seq<Layer>, id: string, w: seq<string>)
    requires Exposes(layers, w) && Edge(layers, id, w[0])
    ensures Exposes(layers, [id] + w)
  {
    hide Edge, Declared, HasMembers;
    var v := [id] + w;
    forall i | 0 <= i < |v| - 1
      ensures Edge(layers, v[i], v[i + 1])
    {
      if i > 0 { assert Edge(layers, w[i - 1], w[i - 1 + 1]); }
    }
  }

  /** A bundle is labelled escalation-capable exactly when something reachable is, or is an unlabelled member. */
  lemma RiskIsHonest(layers: seq<Layer>, id: string)
    requires Resolution(layers, id, []).Ok?
    ensures Resolution(layers, id, []).value.risk == Some(EscalationCapable) <==> exists w :: Exposes(layers, w) && w[0] == id
  {
    hide Resolution, Declared, HasMembers, Walk;
    if Resolution(layers, id, []).value.risk == Some(EscalationCapable) { LabelledIsExposed(layers, id, []); }
    if w :| Exposes(layers, w) && w != [] && w[0] == id { ExposedIsLabelled(layers, [], w); }
  }

  /** Below a bundle labelled contained, everything reachable resolves contained, and every member without members says so itself. */
  lemma {:induction false} ContainedReachesOnlyContained(layers: seq<Layer>, path: seq<string>, w: seq<string>)
    requires |path| < MAX_INCLUDE_DEPTH && |w| > 1 && Walk(layers, w)
    requires Resolution(layers, w[0], path).Ok? && Resolution(layers, w[0], path).value.risk == Some(Contained)
    ensures Resolution(layers, w[|w| - 1], []).Ok? && Resolution(layers, w[|w| - 1], []).value.risk == Some(Contained)
    ensures Declared(layers, w[|w| - 1]) != Some(EscalationCapable)
    ensures !HasMembers(layers, w[|w| - 1]) ==> Declared(layers, w[|w| - 1]) == Some(Contained)
    decreases |w|
  {
    hide Resolution, Declared, Edge, HasMembers;
    EdgeLabels(layers, w[0], path);
    assert Edge(layers, w[0], w[1]);
    EdgeResolves(layers, w[0], path, w[1]);
    RootResolves(layers, w[1], path + [w[0]]);
    assert RiskAt(layers, path + [w[0]], w[1]) == Some(Contained);
    if |w| > 2 {
      WalkTail(layers, w);
      ContainedReachesOnlyContained(layers, path + [w[0]], w[1..]);
    } else {
      PathShrinks(layers, w[1], path + [w[0]], []);
      EdgeLabels(layers, w[1], path + [w[0]]);
      ThreeLabels(Declared(layers, w[1]));
    }
  }
}
