/** What a permission grants, fact by fact, and what substitution does to those facts. */
module Facts {
  import opened Outcomes
  import opened Records
  import opened Constraints
  import opened Templates
  import opened CatalogTypes
  import opened CatalogRecords
  import opened Rendering
  import opened Grants
  import opened Leaf
  import opened Expansion
  import D = DeclarationModel

  /** One granted thing: a group, a command under its run-as account, or one bit of a file entry. */
  datatype Fact = InGroup(name: string) | MayRun(command: SudoCommand) | OnFile(grant: GrantFact)

  predicate Granted(p: Primitives, f: Fact) {
    match f
    case InGroup(n) => n in p.groups
    case MayRun(c) => c in p.sudo
    case OnFile(g) => Holds(p.files, g)
  }

  function TemplateOf(f: Fact): string {
    match f
    case InGroup(n) => n
    case MayRun(c) => c.command
    case OnFile(g) => g.path
  }

  /** The same grant at another name, command line or path. */
  function Moved(f: Fact, to: string): Fact {
    match f
    case InGroup(_) => InGroup(to)
    case MayRun(c) => MayRun(c.(command := to))
    case OnFile(g) => OnFile(MovedGrant(g, to))
  }

  function MovedGrant(g: GrantFact, to: string): GrantFact {
    match g
    case OnPath(_) => OnPath(to)
    case Bit(_, b) => Bit(to, b)
    case Deep(_) => Deep(to)
  }

  /** The i-th copy of a fact whose template is filled from `params`. */
  function FactAt(f: Fact, params: Params, i: nat): Fact { Moved(f, Instance(TemplateOf(f), params, i)) }

  function CopiesOf(f: Fact, params: Params): nat { Width(Names(TemplateOf(f)), params) }

  /** A fact is safe when it passes the gate of its kind. */
  predicate Safe(p: Primitives, f: Fact) {
    match f
    case InGroup(n) => D.ValidGroupName(n)
    case MayRun(c) => Fit(c.command)
    case OnFile(g) => Fit(g.path) && (EndsWithSlash(g.path) ==> Holds(p.files, Deep(g.path)))
  }

  lemma JoinedGrants(a: Primitives, b: Primitives, f: Fact)
    ensures Granted(Primitives(AddNew(a.groups, b.groups), AddNew(a.sudo, b.sudo), Union(a.files, b.files)), f)
       <==> Granted(a, f) || Granted(b, f)
  {
    if f.OnFile? { UnionSays(a.files, b.files, f.grant); }
  }

  lemma AppendedGrants(a: Primitives, b: Primitives, f: Fact)
    ensures Granted(Primitives(a.groups + b.groups, a.sudo + b.sudo, a.files + b.files), f) <==> Granted(a, f) || Granted(b, f)
  {
    if f.OnFile? { AppendedHolds(a.files, b.files, f.grant); }
  }

  lemma AppendedHolds(a: seq<ResolvedGrant>, b: seq<ResolvedGrant>, f: GrantFact)
    ensures Holds(a + b, f) <==> Holds(a, f) || Holds(b, f)
  {
    if Holds(a, f) {
      var i :| 0 <= i < |a| && Says(a[i], f);
      assert Says((a + b)[i], f);
    }
    if Holds(b, f) {
      var i :| 0 <= i < |b| && Says(b[i], f);
      assert Says((a + b)[|a| + i], f);
    }
  }

  // ----- one list at a time -----

  /** `f` is some copy of a fact of `p`. */
  ghost predicate IsCopy(p: Primitives, params: Params, f: Fact) {
    exists f0, i: nat :: Granted(p, f0) && i < CopiesOf(f0, params) && f == FactAt(f0, params, i)
  }

  lemma GroupCopyIs(owner: string, t: string, params: Params, rules: Rules)
    requires GroupCopies(owner, params, rules)(t).Ok?
    ensures Rendered(owner, t, params, rules).Ok?
    ensures GroupCopies(owner, params, rules)(t).value == Copies(t, params)
    ensures forall i :: 0 <= i < Width(Names(t), params) ==> D.ValidGroupName(Instance(t, params, i))
  {
    assert forall v :: BadGroup()(v) <==> !D.ValidGroupName(v);
  }

  lemma GroupsAreCopies(owner: string, p: Primitives, params: Params, rules: Rules, n: string)
    requires GroupsOf(owner, p.groups, params, rules).Ok?
    ensures n in GroupsOf(owner, p.groups, params, rules).value <==> IsCopy(p, params, InGroup(n))
    ensures n in GroupsOf(owner, p.groups, params, rules).value ==> D.ValidGroupName(n)
  {
    hide Instance, Width, Names, Rendered, Copies, Collect, GroupCopies, CommandCopies, GrantCopies, D.ValidGroupName, Fit;
    var f := GroupCopies(owner, params, rules);
    CollectHolds(p.groups, f, n);
    if n in GroupsOf(owner, p.groups, params, rules).value {
      var k :| 0 <= k < |p.groups| && f(p.groups[k]).Ok? && n in f(p.groups[k]).value;
      GroupCopyIs(owner, p.groups[k], params, rules);
      var i :| 0 <= i < |Copies(p.groups[k], params)| && Copies(p.groups[k], params)[i] == n;
      assert Granted(p, InGroup(p.groups[k])) && InGroup(n) == FactAt(InGroup(p.groups[k]), params, i);
    }
    if IsCopy(p, params, InGroup(n)) {
      var f0, i: nat :| Granted(p, f0) && i < CopiesOf(f0, params) && InGroup(n) == FactAt(f0, params, i);
      var k :| 0 <= k < |p.groups| && p.groups[k] == f0.name;
      CollectOk(p.groups, f, k);
      GroupCopyIs(owner, p.groups[k], params, rules);
      assert Copies(p.groups[k], params)[i] == n;
    }
  }

  lemma CommandCopyIs(owner: string, c: SudoCommand, params: Params, rules: Rules)
    requires CommandCopies(owner, params, rules)(c).Ok?
    ensures Rendered(owner, c.command, params, rules).Ok?
    ensures CommandCopies(owner, params, rules)(c).value == Stamped(Copies(c.command, params), c.runas)
    ensures forall i :: 0 <= i < Width(Names(c.command), params) ==> Fit(Instance(c.command, params, i))
  {
    assert forall v :: BadCommand()(v) <==> !Fit(v);
  }

  lemma CommandsAreCopies(owner: string, p: Primitives, params: Params, rules: Rules, c: SudoCommand)
    requires CommandsOf(owner, p.sudo, params, rules).Ok?
    ensures c in CommandsOf(owner, p.sudo, params, rules).value <==> IsCopy(p, params, MayRun(c))
    ensures c in CommandsOf(owner, p.sudo, params, rules).value ==> Fit(c.command)
  {
    hide Instance, Width, Names, Rendered, Copies, Collect, GroupCopies, CommandCopies, GrantCopies, D.ValidGroupName, Fit;
    var f := CommandCopies(owner, params, rules);
    CollectHolds(p.sudo, f, c);
    if c in CommandsOf(owner, p.sudo, params, rules).value {
      var k :| 0 <= k < |p.sudo| && f(p.sudo[k]).Ok? && c in f(p.sudo[k]).value;
      CommandCopyIs(owner, p.sudo[k], params, rules);
      var i :| 0 <= i < |f(p.sudo[k]).value| && f(p.sudo[k]).value[i] == c;
      assert Granted(p, MayRun(p.sudo[k])) && MayRun(c) == FactAt(MayRun(p.sudo[k]), params, i);
    }
    if IsCopy(p, params, MayRun(c)) {
      var f0, i: nat :| Granted(p, f0) && i < CopiesOf(f0, params) && MayRun(c) == FactAt(f0, params, i);
      var k :| 0 <= k < |p.sudo| && p.sudo[k] == f0.command;
      CollectOk(p.sudo, f, k);
      CommandCopyIs(owner, p.sudo[k], params, rules);
      assert f(p.sudo[k]).value[i] == c;
    }
  }

  lemma GrantCopyIs(owner: string, g: ResolvedGrant, params: Params, rules: Rules)
    requires GrantCopies(owner, params, rules)(g).Ok?
    ensures Rendered(owner, g.path, params, rules).Ok?
    ensures GrantCopies(owner, params, rules)(g).value == Located(g, Copies(g.path, params))
    ensures forall i :: 0 <= i < Width(Names(g.path), params) ==>
              Fit(Instance(g.path, params, i)) && (EndsWithSlash(Instance(g.path, params, i)) ==> g.recursive)
  {
    assert forall v :: BadPath(g.recursive)(v) <==> (!Fit(v) || (EndsWithSlash(v) && !g.recursive));
  }

  /** A rendered entry says what its template entry says, at the rendered path. */
  lemma LocatedSays(g: ResolvedGrant, params: Params, i: nat, f: GrantFact)
    requires i < Width(Names(g.path), params)
    ensures Says(Located(g, Copies(g.path, params))[i], f)
       <==> Says(g, MovedGrant(f, g.path)) && f.path == Instance(g.path, params, i)
  {
  }

  lemma FilesAreCopies(owner: string, p: Primitives, params: Params, rules: Rules, f: GrantFact)
    requires FilesOf(owner, p.files, params, rules).Ok?
    ensures Holds(FilesOf(owner, p.files, params, rules).value, f) <==> IsCopy(p, params, OnFile(f))
    ensures UniquePaths(FilesOf(owner, p.files, params, rules).value) && WellShaped(FilesOf(owner, p.files, params, rules).value)
    ensures Holds(FilesOf(owner, p.files, params, rules).value, f) ==>
              Fit(f.path) && (EndsWithSlash(f.path) ==> Holds(FilesOf(owner, p.files, params, rules).value, Deep(f.path)))
  {
    var copies := GrantCopies(owner, params, rules);
    var rendered := Collect(p.files, copies).value;
    UnionSays([], rendered, f);
    UnionSays([], rendered, Deep(f.path));
    RenderedAreShaped(owner, p.files, params, rules);
    UnionKeeps([], rendered);
    if Holds(rendered, f) { RenderedIsCopy(owner, p, params, rules, f); }
    if IsCopy(p, params, OnFile(f)) { CopyIsRendered(owner, p, params, rules, f); }
  }

  lemma RenderedAreShaped(owner: string, files: seq<ResolvedGrant>, params: Params, rules: Rules)
    requires Collect(files, GrantCopies(owner, params, rules)).Ok?
    ensures WellShaped(Collect(files, GrantCopies(owner, params, rules)).value)
  {
    hide Rendered;
    var copies := GrantCopies(owner, params, rules);
    var rendered := Collect(files, copies).value;
    forall j | 0 <= j < |rendered|
      ensures rendered[j].shape == ShapeOf(rendered[j].path, rendered[j].recursive)
    {
      CollectHolds(files, copies, rendered[j]);
      var k :| 0 <= k < |files| && copies(files[k]).Ok? && rendered[j] in copies(files[k]).value;
      GrantCopyIs(owner, files[k], params, rules);
    }
  }

  lemma RenderedIsCopy(owner: string, p: Primitives, params: Params, rules: Rules, f: GrantFact)
    requires Collect(p.files, GrantCopies(owner, params, rules)).Ok?
    requires Holds(Collect(p.files, GrantCopies(owner, params, rules)).value, f)
    ensures IsCopy(p, params, OnFile(f))
    ensures Fit(f.path) && (EndsWithSlash(f.path) ==> Holds(Collect(p.files, GrantCopies(owner, params, rules)).value, Deep(f.path)))
  {
    hide Instance, Width, Names, Rendered, Copies, Collect, GroupCopies, CommandCopies, GrantCopies, D.ValidGroupName, Fit;
    var copies := GrantCopies(owner, params, rules);
    var rendered := Collect(p.files, copies).value;
    var j :| 0 <= j < |rendered| && Says(rendered[j], f);
    CollectHolds(p.files, copies, rendered[j]);
    var k :| 0 <= k < |p.files| && copies(p.files[k]).Ok? && rendered[j] in copies(p.files[k]).value;
    GrantCopyIs(owner, p.files[k], params, rules);
    var i :| 0 <= i < |copies(p.files[k]).value| && copies(p.files[k]).value[i] == rendered[j];
    LocatedSays(p.files[k], params, i, f);
    var f0 := MovedGrant(f, p.files[k].path);
    assert Granted(p, OnFile(f0)) && OnFile(f) == FactAt(OnFile(f0), params, i);
    if EndsWithSlash(f.path) { assert Says(rendered[j], Deep(f.path)); }
  }

  lemma CopyIsRendered(owner: string, p: Primitives, params: Params, rules: Rules, f: GrantFact)
    requires Collect(p.files, GrantCopies(owner, params, rules)).Ok? && IsCopy(p, params, OnFile(f))
    ensures Holds(Collect(p.files, GrantCopies(owner, params, rules)).value, f)
  {
    hide Instance, Width, Names, Rendered, Copies, Collect, GroupCopies, CommandCopies, GrantCopies, D.ValidGroupName, Fit;
    var copies := GrantCopies(owner, params, rules);
    var f0, i: nat :| Granted(p, f0) && i < CopiesOf(f0, params) && OnFile(f) == FactAt(f0, params, i);
    var k :| 0 <= k < |p.files| && Says(p.files[k], f0.grant);
    CollectOk(p.files, copies, k);
    GrantCopyIs(owner, p.files[k], params, rules);
    LocatedSays(p.files[k], params, i, f);
    var g := copies(p.files[k]).value[i];
    CollectHolds(p.files, copies, g);
    var j :| 0 <= j < |Collect(p.files, copies).value| && Collect(p.files, copies).value[j] == g;
    assert Says(Collect(p.files, copies).value[j], f);
  }

  // ----- all three lists -----

  /** Substitution grants exactly the copies of what was granted, and each passes its gate. */
  lemma SubstitutedGrants(owner: string, p: Primitives, params: Params, rules: Rules, f: Fact)
    requires Substituted(owner, p, params, rules).Ok?
    ensures Granted(Substituted(owner, p, params, rules).value, f) <==> IsCopy(p, params, f)
    ensures Granted(Substituted(owner, p, params, rules).value, f) ==> Safe(Substituted(owner, p, params, rules).value, f)
    ensures UniquePaths(Substituted(owner, p, params, rules).value.files) && WellShaped(Substituted(owner, p, params, rules).value.files)
  {
    hide GroupsOf, CommandsOf, FilesOf;
    match f
    case InGroup(n) => GroupsAreCopies(owner, p, params, rules, n); FilesAreCopies(owner, p, params, rules, OnPath(""));
    case MayRun(c) => CommandsAreCopies(owner, p, params, rules, c); FilesAreCopies(owner, p, params, rules, OnPath(""));
    case OnFile(g) => FilesAreCopies(owner, p, params, rules, g);
  }

  lemma GrantedRenders(owner: string, p: Primitives, params: Params, rules: Rules, f: Fact)
    requires Substituted(owner, p, params, rules).Ok? && Granted(p, f)
    ensures Rendered(owner, TemplateOf(f), params, rules).Ok?
  {
    hide Instance, Width, Names, Rendered, Copies, Collect, GroupCopies, CommandCopies, GrantCopies, D.ValidGroupName, Fit;
    match f
    case InGroup(n) =>
      var k :| 0 <= k < |p.groups| && p.groups[k] == n;
      CollectOk(p.groups, GroupCopies(owner, params, rules), k);
      GroupCopyIs(owner, n, params, rules);
    case MayRun(c) =>
      var k :| 0 <= k < |p.sudo| && p.sudo[k] == c;
      CollectOk(p.sudo, CommandCopies(owner, params, rules), k);
      CommandCopyIs(owner, c, params, rules);
    case OnFile(g) =>
      var k :| 0 <= k < |p.files| && Says(p.files[k], g);
      CollectOk(p.files, GrantCopies(owner, params, rules), k);
      GrantCopyIs(owner, p.files[k], params, rules);
  }

  // ----- copies of a member -----

  lemma SafeStays(a: Primitives, b: Primitives, f: Fact)
    requires Safe(a, f)
    requires forall g :: Granted(a, g) ==> Granted(b, g)
    ensures Safe(b, f)
  {
    hide D.ValidGroupName, Fit;
    if f.OnFile? && EndsWithSlash(f.grant.path) {
      assert Granted(a, OnFile(Deep(f.grant.path)));
      assert Granted(b, OnFile(Deep(f.grant.path)));
    }
  }

  /** Several copies of a member grant what each of them grants. */
  lemma {:induction false} CopiedGrants(owner: string, p: Primitives, copies: seq<Params>, rules: Rules, f: Fact)
    requires Copied(owner, p, copies, rules).Ok?
    ensures Granted(Copied(owner, p, copies, rules).value, f) <==> exists k :: 0 <= k < |copies| && IsCopy(p, copies[k], f)
    ensures Granted(Copied(owner, p, copies, rules).value, f) ==> Safe(Copied(owner, p, copies, rules).value, f)
    decreases |copies|
  {
    hide Substituted, IsCopy, Safe;
    if copies != [] {
      var n := |copies| - 1;
      CopiedGrants(owner, p, copies[..n], rules, f);
      var before := Copied(owner, p, copies[..n], rules).value;
      var last := Substituted(owner, p, copies[n], rules).value;
      var all := Copied(owner, p, copies, rules).value;
      SubstitutedGrants(owner, p, copies[n], rules, f);
      forall g ensures Granted(all, g) <==> Granted(before, g) || Granted(last, g) {
        AppendedGrants(before, last, g);
      }
      if Granted(before, f) { SafeStays(before, all, f); }
      if Granted(last, f) { SafeStays(last, all, f); }
      assert forall k :: 0 <= k < n ==> copies[..n][k] == copies[k];
    }
  }

  lemma {:induction false} BoundIsScalar(bundle: string, bs: seq<Binding>, params: Params, rules: Rules)
    requires Bound(bundle, bs, params, rules).Ok?
    ensures forall n :: n in Bound(bundle, bs, params, rules).value ==> Bound(bundle, bs, params, rules).value[n].Scalar?
    decreases |bs|
  {
    hide Rendered;
    if bs != [] { BoundIsScalar(bundle, bs[..|bs| - 1], params, rules); }
  }

  lemma ScalarWidth(names: seq<string>, params: Params)
    requires forall n :: n in params ==> params[n].Scalar?
    ensures Width(names, params) == 1
  {
  }

  /** A member's fact filled by one copy of its parameters. */
  ghost predicate FilledBy(p: Primitives, params: Params, f: Fact) {
    exists f0 :: Granted(p, f0) && f == FactAt(f0, params, 0)
  }

  lemma ScalarCopy(p: Primitives, params: Params, f: Fact)
    requires forall n :: n in params ==> params[n].Scalar?
    ensures IsCopy(p, params, f) <==> FilledBy(p, params, f)
  {
    hide Instance, Width, Names;
    if IsCopy(p, params, f) {
      var f0, i: nat :| Granted(p, f0) && i < CopiesOf(f0, params) && f == FactAt(f0, params, i);
      ScalarWidth(Names(TemplateOf(f0)), params);
      assert i == 0;
    }
    if FilledBy(p, params, f) {
      var f0 :| Granted(p, f0) && f == FactAt(f0, params, 0);
      ScalarWidth(Names(TemplateOf(f0)), params);
      assert 0 < CopiesOf(f0, params);
    }
  }

  /** A bound member grants exactly its facts, filled by each rendering of the bindings. */
  lemma ExpandedGrants(bundle: string, b: BoundMember, params: Params, rules: Rules, f: Fact)
    requires Expanded(bundle, b, params, rules).Ok?
    ensures Fanned(bundle, b.edge.bindings, params, rules).Ok?
    ensures Granted(Expanded(bundle, b, params, rules).value, f)
       <==> exists k :: 0 <= k < |Fanned(bundle, b.edge.bindings, params, rules).value|
                        && FilledBy(Of(b.member), Fanned(bundle, b.edge.bindings, params, rules).value[k], f)
    ensures Granted(Expanded(bundle, b, params, rules).value, f) ==> Safe(Expanded(bundle, b, params, rules).value, f)
  {
    hide Copied, IsCopy, FilledBy, Safe, Bound;
    var copies := Fanned(bundle, b.edge.bindings, params, rules).value;
    CopiedGrants(b.edge.id, Of(b.member), copies, b.member.params, f);
    EachAre(FanOut(b.edge.bindings, params), BoundAt(bundle, b.edge.bindings, params, rules));
    forall k | 0 <= k < |copies|
      ensures IsCopy(Of(b.member), copies[k], f) <==> FilledBy(Of(b.member), copies[k], f)
    {
      assert BoundAt(bundle, b.edge.bindings, params, rules)(k) == Ok(copies[k]);
      BoundIsScalar(bundle, b.edge.bindings, Narrowed(b.edge.bindings, params, k), rules);
      ScalarCopy(Of(b.member), copies[k], f);
    }
  }

  lemma {:induction false} CopiedSubstitutes(owner: string, p: Primitives, copies: seq<Params>, rules: Rules, k: nat)
    requires Copied(owner, p, copies, rules).Ok? && k < |copies|
    ensures Substituted(owner, p, copies[k], rules).Ok?
    decreases |copies|
  {
    hide Substituted;
    if k < |copies| - 1 { CopiedSubstitutes(owner, p, copies[..|copies| - 1], rules, k); }
  }

  /** Every fact of a bound member was rendered under the member's own rules. */
  lemma ExpandedRenders(bundle: string, b: BoundMember, params: Params, rules: Rules, k: nat, f: Fact)
    requires Expanded(bundle, b, params, rules).Ok? && k < |Fanned(bundle, b.edge.bindings, params, rules).value|
    requires Granted(Of(b.member), f)
    ensures Rendered(b.edge.id, TemplateOf(f), Fanned(bundle, b.edge.bindings, params, rules).value[k], b.member.params).Ok?
  {
    hide Copied, Fanned, Substituted, Rendered, Granted;
    var copies := Fanned(bundle, b.edge.bindings, params, rules).value;
    CopiedSubstitutes(b.edge.id, Of(b.member), copies, b.member.params, k);
    GrantedRenders(b.edge.id, Of(b.member), copies[k], b.member.params, f);
  }

  // ----- literal bindings -----

  /** The member's parameters when every binding is a plain string. */
  function Literal(bs: seq<Binding>): Params
    decreases |bs|
  {
    if bs == [] then map[] else Literal(bs[..|bs| - 1])[bs[|bs| - 1].param := Scalar(bs[|bs| - 1].template)]
  }

  lemma HoleFreeRenders(owner: string, t: string, params: Params, rules: Rules)
    requires !HasPlaceholder(t)
    ensures Rendered(owner, t, params, rules) == Ok([t])
  {
    hide Parse, HoleNames;
    assert Names(t) == [];
    OneCopy(Names(t), params);
    assert Copies(t, params) == [t];
  }

  lemma {:induction false} LiteralBinds(bundle: string, bs: seq<Binding>, params: Params, rules: Rules)
    requires forall i :: 0 <= i < |bs| ==> !HasPlaceholder(bs[i].template)
    ensures Bound(bundle, bs, params, rules) == Ok(Literal(bs)) && BindingNames(bs) == []
    decreases |bs|
  {
    hide Rendered, Parse, HoleNames;
    if bs != [] {
      LiteralBinds(bundle, bs[..|bs| - 1], params, rules);
      HoleFreeRenders(bundle, bs[|bs| - 1].template, params, rules);
    }
  }

  /** Bindings without placeholders need nothing from the role: the member is filled by the strings as written. */
  lemma LiteralExpansion(bundle: string, b: BoundMember, f: Fact)
    requires Expanded(bundle, b, map[], map[]).Ok?
    requires forall i :: 0 <= i < |b.edge.bindings| ==> !HasPlaceholder(b.edge.bindings[i].template)
    ensures Granted(Expanded(bundle, b, map[], map[]).value, f) <==> FilledBy(Of(b.member), Literal(b.edge.bindings), f)
    ensures Fanned(bundle, b.edge.bindings, map[], map[]) == Ok([Literal(b.edge.bindings)])
  {
    hide Expanded, FilledBy, Bound, Literal, HasPlaceholder;
    var bs := b.edge.bindings;
    LiteralBinds(bundle, bs, map[], map[]);
    ExpandedGrants(bundle, b, map[], map[], f);
    assert FanOut(bs, map[]) == 1 && Narrowed(bs, map[], 0) == map[];
    EachAre(1, BoundAt(bundle, bs, map[], map[]));
    assert BoundAt(bundle, bs, map[], map[])(0) == Ok(Literal(bs));
    assert Fanned(bundle, bs, map[], map[]).value == [Literal(bs)];
  }
}
