/**
 Which roles a permission accepts: resolving it with parameters succeeds exactly
 when every template is supplied and every string it renders to passes the gate
 of its kind, for the permission itself and for each bound member.
 */
module Acceptance {
  import opened Outcomes
  import opened Records
  import opened Constraints
  import opened Templates
  import opened CatalogTypes
  import opened CatalogRecords
  import opened Rendering
  import opened Grants
  import opened Leaf
  import opened Expansion
  import opened Facts
  import opened Resolver
  import opened RoleParams
  import D = DeclarationModel

  lemma {:induction false} CollectOkIff<A, B>(xs: seq<A>, f: A -> Result<seq<B>, CatalogError>)
    ensures Collect(xs, f).Ok? <==> forall i :: 0 <= i < |xs| ==> f(xs[i]).Ok?
    decreases |xs|
  {
    if xs != [] {
      var n := |xs| - 1;
      assert forall i :: 0 <= i < n ==> xs[..n][i] == xs[i];
      CollectOkIff(xs[..n], f);
    }
  }

  // ----- one primitive -----

  /** Every copy of the template is a valid group name. */
  ghost predicate TakesGroup(t: string, params: Params, rules: Rules) {
    Supplied(Names(t), params, rules) && forall i :: 0 <= i < Width(Names(t), params) ==> D.ValidGroupName(Instance(t, params, i))
  }

  /** Every copy is a concrete command: printable, absolute, never climbing. */
  ghost predicate TakesCommand(t: string, params: Params, rules: Rules) {
    Supplied(Names(t), params, rules) && forall i :: 0 <= i < Width(Names(t), params) ==> Fit(Instance(t, params, i))
  }

  /** Every copy is a concrete path, and one with a final slash only for a recursive grant. */
  ghost predicate TakesPath(g: ResolvedGrant, params: Params, rules: Rules) {
    && Supplied(Names(g.path), params, rules)
    && forall i :: 0 <= i < Width(Names(g.path), params) ==>
         Fit(Instance(g.path, params, i)) && (EndsWithSlash(Instance(g.path, params, i)) ==> g.recursive)
  }

  lemma GroupOkIff(owner: string, t: string, params: Params, rules: Rules)
    ensures GroupCopies(owner, params, rules)(t).Ok? <==> TakesGroup(t, params, rules)
  {
    hide Supplied, Width, Names, Instance, D.ValidGroupName, Defects;
    RendersIff(owner, t, params, rules);
    assert forall v :: BadGroup()(v) <==> !D.ValidGroupName(v);
    if Rendered(owner, t, params, rules).Ok? {
      assert Rendered(owner, t, params, rules).value == Copies(t, params);
    }
  }

  lemma CommandOkIff(owner: string, c: SudoCommand, params: Params, rules: Rules)
    ensures CommandCopies(owner, params, rules)(c).Ok? <==> TakesCommand(c.command, params, rules)
  {
    hide Supplied, Width, Names, Instance, Fit, Defects;
    RendersIff(owner, c.command, params, rules);
    assert forall v :: BadCommand()(v) <==> !Fit(v);
    if Rendered(owner, c.command, params, rules).Ok? {
      assert Rendered(owner, c.command, params, rules).value == Copies(c.command, params);
    }
  }

  lemma GrantOkIff(owner: string, g: ResolvedGrant, params: Params, rules: Rules)
    ensures GrantCopies(owner, params, rules)(g).Ok? <==> TakesPath(g, params, rules)
  {
    hide Supplied, Width, Names, Instance, Fit, Defects;
    RendersIff(owner, g.path, params, rules);
    assert forall v :: BadPath(g.recursive)(v) <==> !(Fit(v) && (EndsWithSlash(v) ==> g.recursive));
    if Rendered(owner, g.path, params, rules).Ok? {
      assert Rendered(owner, g.path, params, rules).value == Copies(g.path, params);
    }
  }

  // ----- all of a permission's -----

  ghost predicate TakesAll(p: Primitives, params: Params, rules: Rules) {
    && (forall i :: 0 <= i < |p.groups| ==> TakesGroup(p.groups[i], params, rules))
    && (forall i :: 0 <= i < |p.sudo| ==> TakesCommand(p.sudo[i].command, params, rules))
    && (forall i :: 0 <= i < |p.files| ==> TakesPath(p.files[i], params, rules))
  }

  /** Substitution succeeds exactly when every primitive takes the parameters. */
  lemma SubstitutedOkIff(owner: string, p: Primitives, params: Params, rules: Rules)
    ensures Substituted(owner, p, params, rules).Ok? <==> TakesAll(p, params, rules)
  {
    hide TakesGroup, TakesCommand, TakesPath, GroupCopies, CommandCopies, GrantCopies, Union;
    CollectOkIff(p.groups, GroupCopies(owner, params, rules));
    CollectOkIff(p.sudo, CommandCopies(owner, params, rules));
    CollectOkIff(p.files, GrantCopies(owner, params, rules));
    forall t: string ensures GroupCopies(owner, params, rules)(t).Ok? <==> TakesGroup(t, params, rules) { GroupOkIff(owner, t, params, rules); }
    forall c: SudoCommand ensures CommandCopies(owner, params, rules)(c).Ok? <==> TakesCommand(c.command, params, rules) { CommandOkIff(owner, c, params, rules); }
    forall g: ResolvedGrant ensures GrantCopies(owner, params, rules)(g).Ok? <==> TakesPath(g, params, rules) { GrantOkIff(owner, g, params, rules); }
  }

  lemma {:induction false} CopiedOkIff(owner: string, p: Primitives, copies: seq<Params>, rules: Rules)
    ensures Copied(owner, p, copies, rules).Ok? <==> forall k :: 0 <= k < |copies| ==> TakesAll(p, copies[k], rules)
    decreases |copies|
  {
    hide Substituted, TakesAll;
    if copies != [] {
      var n := |copies| - 1;
      assert forall k :: 0 <= k < n ==> copies[..n][k] == copies[k];
      CopiedOkIff(owner, p, copies[..n], rules);
      SubstitutedOkIff(owner, p, copies[n], rules);
    }
  }

  /** Every parameter of the member is bound, and nothing else is. */
  ghost predicate BindsExactly(bs: seq<Binding>, rules: Rules) {
    && (forall i :: 0 <= i < |bs| ==> bs[i].param in rules)
    && (forall n :: n in rules ==> exists i :: 0 <= i < |bs| && bs[i].param == n)
  }

  /** A bound member is accepted: complete bindings that fan out, and every copy taken. */
  ghost predicate TakesMember(bundle: string, b: BoundMember, params: Params, rules: Rules) {
    && BindsExactly(b.edge.bindings, b.member.params)
    && Fanned(bundle, b.edge.bindings, params, rules).Ok?
    && forall k :: 0 <= k < |Fanned(bundle, b.edge.bindings, params, rules).value| ==>
         TakesAll(Of(b.member), Fanned(bundle, b.edge.bindings, params, rules).value[k], b.member.params)
  }

  lemma ExpandedOkIff(bundle: string, b: BoundMember, params: Params, rules: Rules)
    ensures Expanded(bundle, b, params, rules).Ok? <==> TakesMember(bundle, b, params, rules)
  {
    hide Fanned, Copied, TakesAll;
    if Fanned(bundle, b.edge.bindings, params, rules).Ok? {
      CopiedOkIff(b.edge.id, Of(b.member), Fanned(bundle, b.edge.bindings, params, rules).value, b.member.params);
    }
    if forall n :: n in b.member.params ==> Binds(b.edge.bindings, n) {
      assert forall n :: n in b.member.params ==> exists i :: 0 <= i < |b.edge.bindings| && b.edge.bindings[i].param == n;
    }
  }

  lemma {:induction false} MembersOkIff(bundle: string, bound: seq<BoundMember>, params: Params, rules: Rules, start: Primitives)
    ensures WithMembers(bundle, bound, params, rules, start).Ok? <==> forall j :: 0 <= j < |bound| ==> TakesMember(bundle, bound[j], params, rules)
    decreases |bound|
  {
    hide Expanded, TakesMember, Joined;
    if bound != [] {
      var n := |bound| - 1;
      assert forall j :: 0 <= j < n ==> bound[..n][j] == bound[j];
      MembersOkIff(bundle, bound[..n], params, rules, start);
      ExpandedOkIff(bundle, bound[n], params, rules);
    }
  }

  /** A role's parameters are accepted exactly when there is one list at most where bindings are in play, and everything takes them. */
  lemma RoleAcceptedIff(r: ResolvedPermission, params: Params)
    ensures ForRole(r, params).Ok? <==>
            && (r.bound == [] || OneDimension(ExpansionNames(r), params))
            && TakesAll(Of(r), params, r.params)
            && forall j :: 0 <= j < |r.bound| ==> TakesMember(r.id, r.bound[j], params, r.params)
  {
    hide Substituted, WithMembers, OneDimension, ExpansionNames, TakesAll, TakesMember;
    SubstitutedOkIff(r.id, Of(r), params, r.params);
    var own := Substituted(r.id, Of(r), params, r.params);
    if own.Ok? { MembersOkIff(r.id, r.bound, params, r.params, own.value); }
  }
}
