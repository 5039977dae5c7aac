/**
 Substituting parameters into a permission's primitives, and expanding a member
 through its bindings (src/catalog.rs).
 */
module Expansion {
  import opened Outcomes
  import opened Records
  import opened Paths
  import opened Constraints
  import opened Templates
  import opened CatalogTypes
  import opened CatalogRecords
  import opened Rendering
  import opened Grants
  import opened Leaf
  import D = DeclarationModel

  type Params = map<string, ParamValue>
  type Rules = map<string, ParamConstraint>

  // ----- lists that may fail -----

  /** Concatenate what each element gives; the first error wins. */
  function Collect<A, B>(xs: seq<A>, f: A -> Result<seq<B>, CatalogError>): Result<seq<B>, CatalogError>
    decreases |xs|
  {
    if xs == [] then Ok([]) else
    var r := Collect(xs[..|xs| - 1], f);
    if r.Err? then r else
    var last := f(xs[|xs| - 1]);
    if last.Err? then last else Ok(r.value + last.value)
  }

  lemma {:induction false} CollectStays<A, B>(xs: seq<A>, f: A -> Result<seq<B>, CatalogError>, i: nat)
    requires i <= |xs| && Collect(xs[..i], f).Err?
    ensures Collect(xs, f) == Collect(xs[..i], f)
    decreases |xs|
  {
    if i < |xs| {
      assert xs[..|xs| - 1][..i] == xs[..i];
      CollectStays(xs[..|xs| - 1], f, i);
    } else {
      assert xs[..i] == xs;
    }
  }

  /** One more element, as the loops take it. */
  lemma CollectNext<A, B>(xs: seq<A>, f: A -> Result<seq<B>, CatalogError>, i: nat, out: seq<B>)
    requires i < |xs| && Collect(xs[..i], f) == Ok(out)
    ensures f(xs[i]).Ok? ==> Collect(xs[..i + 1], f) == Ok(out + f(xs[i]).value)
    ensures f(xs[i]).Err? ==> Collect(xs, f) == f(xs[i])
  {
    assert xs[..i + 1][..i] == xs[..i];
    if f(xs[i]).Err? { CollectStays(xs, f, i + 1); }
  }

  lemma {:induction false} CollectOk<A, B>(xs: seq<A>, f: A -> Result<seq<B>, CatalogError>, i: nat)
    requires Collect(xs, f).Ok? && i < |xs|
    ensures f(xs[i]).Ok?
    decreases |xs|
  {
    if i < |xs| - 1 { CollectOk(xs[..|xs| - 1], f, i); }
  }

  /** The collected list holds exactly what its elements gave. */
  lemma {:induction false} CollectHolds<A, B(!new)>(xs: seq<A>, f: A -> Result<seq<B>, CatalogError>, b: B)
    requires Collect(xs, f).Ok?
    ensures b in Collect(xs, f).value <==> exists i :: 0 <= i < |xs| && f(xs[i]).Ok? && b in f(xs[i]).value
    decreases |xs|
  {
    if xs != [] {
      var n := |xs| - 1;
      CollectHolds(xs[..n], f, b);
      if b in Collect(xs[..n], f).value {
        var i :| 0 <= i < n && f(xs[..n][i]).Ok? && b in f(xs[..n][i]).value;
        assert f(xs[i]).Ok? && b in f(xs[i]).value;
      }
      if b in f(xs[n]).value { assert f(xs[n]).Ok?; }
      forall i | 0 <= i < |xs| && f(xs[i]).Ok? && b in f(xs[i]).value
        ensures b in Collect(xs, f).value
      {
        if i < n { assert xs[..n][i] == xs[i]; }
      }
    }
  }

  /** The results for 0 up to n; the first error wins. */
  function Each<B>(n: nat, f: nat -> Result<B, CatalogError>): Result<seq<B>, CatalogError> {
    if n == 0 then Ok([]) else
    var r := Each(n - 1, f);
    if r.Err? then r else
    var last := f(n - 1);
    if last.Err? then Err(last.error) else Ok(r.value + [last.value])
  }

  lemma {:induction false} EachAre<B>(n: nat, f: nat -> Result<B, CatalogError>)
    requires Each(n, f).Ok?
    ensures |Each(n, f).value| == n && forall i :: 0 <= i < n ==> f(i) == Ok(Each(n, f).value[i])
  {
    if n > 0 { EachAre(n - 1, f); }
  }

  lemma EachNext<B>(n: nat, f: nat -> Result<B, CatalogError>, i: nat, out: seq<B>)
    requires i < n && Each(i, f) == Ok(out)
    ensures f(i).Ok? ==> Each(i + 1, f) == Ok(out + [f(i).value])
    ensures f(i).Err? ==> Each(n, f) == Err(f(i).error)
  {
    if f(i).Err? { EachStays(n, f, i); }
  }

  lemma {:induction false} EachStays<B>(n: nat, f: nat -> Result<B, CatalogError>, i: nat)
    requires i < n && Each(i, f).Ok? && f(i).Err?
    ensures Each(n, f) == Err(f(i).error)
  {
    if i < n - 1 { EachStays(n - 1, f, i); }
  }

  // ----- one primitive -----

  function FirstBad(vs: seq<string>, bad: string -> bool): (r: Option<string>)
    ensures r.None? <==> forall i :: 0 <= i < |vs| ==> !bad(vs[i])
  {
    if vs == [] then None else if bad(vs[0]) then Some(vs[0]) else FirstBad(vs[1..], bad)
  }

  function BadGroup(): string -> bool { (v: string) => !D.ValidGroupName(v) }

  function BadCommand(): string -> bool { (v: string) => !Fit(v) }

  /** A trailing slash asks for a recursive directory grant. */
  function BadPath(recursive: bool): string -> bool { (v: string) => !Fit(v) || (EndsWithSlash(v) && !recursive) }

  function GroupCopies(owner: string, params: Params, rules: Rules): string -> Result<seq<string>, CatalogError> {
    (t: string) =>
      var r := Rendered(owner, t, params, rules);
      if r.Err? then Err(r.error) else
      var bad := FirstBad(r.value, BadGroup());
      if bad.Some? then Err(InvalidGroupName(owner, bad.value)) else Ok(r.value)
  }

  function CommandCopies(owner: string, params: Params, rules: Rules): SudoCommand -> Result<seq<SudoCommand>, CatalogError> {
    (c: SudoCommand) =>
      var r := Rendered(owner, c.command, params, rules);
      if r.Err? then Err(r.error) else
      var bad := FirstBad(r.value, BadCommand());
      if bad.Some? then Err(InvalidSudoCommand(owner, bad.value)) else Ok(Stamped(r.value, c.runas))
  }

  function Located(g: ResolvedGrant, paths: seq<string>): seq<ResolvedGrant> {
    seq(|paths|, i requires 0 <= i < |paths| => ResolvedGrant(paths[i], g.access, g.recursive, ShapeOf(paths[i], g.recursive)))
  }

  function GrantCopies(owner: string, params: Params, rules: Rules): ResolvedGrant -> Result<seq<ResolvedGrant>, CatalogError> {
    (g: ResolvedGrant) =>
      var r := Rendered(owner, g.path, params, rules);
      if r.Err? then Err(r.error) else
      var bad := FirstBad(r.value, BadPath(g.recursive));
      if bad.Some? then Err(InvalidFilePath(owner, bad.value)) else Ok(Located(g, r.value))
  }

  function GroupsOf(owner: string, groups: seq<string>, params: Params, rules: Rules): Result<seq<string>, CatalogError> {
    Collect(groups, GroupCopies(owner, params, rules))
  }

  function CommandsOf(owner: string, sudo: seq<SudoCommand>, params: Params, rules: Rules): Result<seq<SudoCommand>, CatalogError> {
    Collect(sudo, CommandCopies(owner, params, rules))
  }

  function FilesOf(owner: string, files: seq<ResolvedGrant>, params: Params, rules: Rules): Result<seq<ResolvedGrant>, CatalogError> {
    var r := Collect(files, GrantCopies(owner, params, rules));
    if r.Err? then r else Ok(Union([], r.value))
  }

  method FindBad(vs: seq<string>, bad: string -> bool) returns (r: Option<string>)
    ensures r == FirstBad(vs, bad)
  {
    for i := 0 to |vs|
      invariant FirstBad(vs[i..], bad) == FirstBad(vs, bad)
    {
      assert vs[i..][1..] == vs[i + 1..];
      if bad(vs[i]) {
        return Some(vs[i]);
      }
    }
    return None;
  }

  method OneGroup(owner: string, t: string, params: Params, rules: Rules) returns (r: Result<seq<string>, CatalogError>)
    ensures r == GroupCopies(owner, params, rules)(t)
  {
    r := RenderTemplate(owner, t, params, rules);
    if r.Ok? {
      var bad := FindBad(r.value, BadGroup());
      if bad.Some? { r := Err(InvalidGroupName(owner, bad.value)); }
    }
  }

  method OneCommand(owner: string, c: SudoCommand, params: Params, rules: Rules) returns (r: Result<seq<SudoCommand>, CatalogError>)
    ensures r == CommandCopies(owner, params, rules)(c)
  {
    var rendered := RenderTemplate(owner, c.command, params, rules);
    if rendered.Err? { return Err(rendered.error); }
    var bad := FindBad(rendered.value, BadCommand());
    if bad.Some? { return Err(InvalidSudoCommand(owner, bad.value)); }
    var copies := Stamp(rendered.value, c.runas);
    return Ok(copies);
  }

  method OneGrant(owner: string, g: ResolvedGrant, params: Params, rules: Rules) returns (r: Result<seq<ResolvedGrant>, CatalogError>)
    ensures r == GrantCopies(owner, params, rules)(g)
  {
    var rendered := RenderTemplate(owner, g.path, params, rules);
    if rendered.Err? { return Err(rendered.error); }
    var bad := FindBad(rendered.value, BadPath(g.recursive));
    if bad.Some? { return Err(InvalidFilePath(owner, bad.value)); }
    return Ok(Located(g, rendered.value));
  }

  method SubstituteGroups(owner: string, groups: seq<string>, params: Params, rules: Rules) returns (r: Result<seq<string>, CatalogError>)
    ensures r == GroupsOf(owner, groups, params, rules)
  {
    ghost var f := GroupCopies(owner, params, rules);
    var out: seq<string> := [];
    for i := 0 to |groups|
      invariant Collect(groups[..i], f) == Ok(out)
    {
      CollectNext(groups, f, i, out);
      var one := OneGroup(owner, groups[i], params, rules);
      if one.Err? { return one; }
      out := out + one.value;
    }
    assert groups[..|groups|] == groups;
    return Ok(out);
  }

  method SubstituteCommands(owner: string, sudo: seq<SudoCommand>, params: Params, rules: Rules) returns (r: Result<seq<SudoCommand>, CatalogError>)
    ensures r == CommandsOf(owner, sudo, params, rules)
  {
    ghost var f := CommandCopies(owner, params, rules);
    var out: seq<SudoCommand> := [];
    for i := 0 to |sudo|
      invariant Collect(sudo[..i], f) == Ok(out)
    {
      CollectNext(sudo, f, i, out);
      var one := OneCommand(owner, sudo[i], params, rules);
      if one.Err? { return one; }
      out := out + one.value;
    }
    assert sudo[..|sudo|] == sudo;
    return Ok(out);
  }

  method SubstituteFiles(owner: string, files: seq<ResolvedGrant>, params: Params, rules: Rules) returns (r: Result<seq<ResolvedGrant>, CatalogError>)
    ensures r == FilesOf(owner, files, params, rules)
  {
    ghost var f := GrantCopies(owner, params, rules);
    var out: seq<ResolvedGrant> := [];
    for i := 0 to |files|
      invariant Collect(files[..i], f) == Ok(out)
    {
      CollectNext(files, f, i, out);
      var one := OneGrant(owner, files[i], params, rules);
      if one.Err? { return one; }
      out := out + one.value;
    }
    assert files[..|files|] == files;
    var merged := UnionInto([], out);
    return Ok(merged);
  }

  // ----- bindings -----

  /** The placeholders of the binding templates, in order. */
  function BindingNames(bs: seq<Binding>): seq<string>
    decreases |bs|
  {
    if bs == [] then [] else BindingNames(bs[..|bs| - 1]) + Placeholders(bs[|bs| - 1].template)
  }

  /** The list parameter that drives the fan-out: the last one mentioned. */
  function Driver(names: seq<string>, params: Params): (r: Option<string>)
    ensures r.Some? ==> r.value in params && params[r.value].Items?
    decreases |names|
  {
    if names == [] then None else
    var n := names[|names| - 1];
    if n in params && params[n].Items? then Some(n) else Driver(names[..|names| - 1], params)
  }

  lemma {:induction false} DriverIs(names: seq<string>, params: Params)
    ensures Driver(names, params).Some? ==> Driver(names, params).value in names
    ensures Driver(names, params).None? ==> forall n :: n in names && n in params ==> !params[n].Items?
    decreases |names|
  {
    if names != [] {
      assert names == names[..|names| - 1] + [names[|names| - 1]];
      DriverIs(names[..|names| - 1], params);
    }
  }

  function FanOut(bs: seq<Binding>, params: Params): nat {
    var l := Driver(BindingNames(bs), params);
    if l.Some? then |params[l.value].items| else 1
  }

  /** The bundle's parameters with the driving list narrowed to its i-th element. */
  function Narrowed(bs: seq<Binding>, params: Params, i: nat): Params {
    var l := Driver(BindingNames(bs), params);
    if l.Some? && i < |params[l.value].items| then params[l.value := params[l.value].items[i]] else params
  }

  /** One copy of the member's parameters. */
  function Bound(bundle: string, bs: seq<Binding>, params: Params, rules: Rules): Result<Params, CatalogError>
    decreases |bs|
  {
    if bs == [] then Ok(map[]) else
    var b := bs[|bs| - 1];
    var before := Bound(bundle, bs[..|bs| - 1], params, rules);
    if before.Err? then before else
    var r := Rendered(bundle, b.template, params, rules);
    if r.Err? then Err(r.error)
    else if |r.value| != 1 then Err(MultipleExpansionLists(bundle))
    else Ok(before.value[b.param := Scalar(r.value[0])])
  }

  function BoundAt(bundle: string, bs: seq<Binding>, params: Params, rules: Rules): nat -> Result<Params, CatalogError> {
    (i: nat) => Bound(bundle, bs, Narrowed(bs, params, i), rules)
  }

  function Fanned(bundle: string, bs: seq<Binding>, params: Params, rules: Rules): Result<seq<Params>, CatalogError> {
    Each(FanOut(bs, params), BoundAt(bundle, bs, params, rules))
  }

  lemma {:induction false} BoundStays(bundle: string, bs: seq<Binding>, params: Params, rules: Rules, i: nat)
    requires i <= |bs| && Bound(bundle, bs[..i], params, rules).Err?
    ensures Bound(bundle, bs, params, rules) == Bound(bundle, bs[..i], params, rules)
    decreases |bs|
  {
    if i < |bs| {
      assert bs[..|bs| - 1][..i] == bs[..i];
      BoundStays(bundle, bs[..|bs| - 1], params, rules, i);
    } else {
      assert bs[..i] == bs;
    }
  }

  method RenderOnce(bundle: string, bs: seq<Binding>, params: Params, rules: Rules) returns (r: Result<Params, CatalogError>)
    ensures r == Bound(bundle, bs, params, rules)
  {
    var out: Params := map[];
    for i := 0 to |bs|
      invariant Bound(bundle, bs[..i], params, rules) == Ok(out)
    {
      assert bs[..i + 1][..i] == bs[..i];
      var rendered := RenderTemplate(bundle, bs[i].template, params, rules);
      if rendered.Err? {
        BoundStays(bundle, bs, params, rules, i + 1);
        return Err(rendered.error);
      }
      if |rendered.value| != 1 {
        BoundStays(bundle, bs, params, rules, i + 1);
        return Err(MultipleExpansionLists(bundle));
      }
      out := out[bs[i].param := Scalar(rendered.value[0])];
    }
    assert bs[..|bs|] == bs;
    return Ok(out);
  }

  lemma DriverLast(names: seq<string>, n: string, params: Params)
    ensures Driver(names + [n], params) == if n in params && params[n].Items? then Some(n) else Driver(names, params)
  {
    assert (names + [n])[..|names|] == names;
  }

  method ScanNames(ghost before: seq<string>, found: Option<string>, names: seq<string>, params: Params) returns (l: Option<string>)
    requires found == Driver(before, params)
    ensures l == Driver(before + names, params)
  {
    l := found;
    assert before + names[..0] == before;
    for j := 0 to |names|
      invariant l == Driver(before + names[..j], params)
    {
      assert before + names[..j + 1] == (before + names[..j]) + [names[j]];
      DriverLast(before + names[..j], names[j], params);
      if names[j] in params && params[names[j]].Items? { l := Some(names[j]); }
    }
    assert names[..|names|] == names;
  }

  method FindDriver(bs: seq<Binding>, params: Params) returns (l: Option<string>)
    ensures l == Driver(BindingNames(bs), params)
  {
    l := None;
    for i := 0 to |bs|
      invariant l == Driver(BindingNames(bs[..i]), params)
    {
      assert bs[..i + 1][..i] == bs[..i];
      var names := ExtractPlaceholders(bs[i].template);
      l := ScanNames(BindingNames(bs[..i]), l, names, params);
    }
    assert bs[..|bs|] == bs;
  }

  method RenderElement(bundle: string, bs: seq<Binding>, driver: Option<string>, params: Params, rules: Rules, i: nat)
    returns (r: Result<Params, CatalogError>)
    requires driver == Driver(BindingNames(bs), params) && i < FanOut(bs, params)
    ensures r == BoundAt(bundle, bs, params, rules)(i)
  {
    var element := params;
    if driver.Some? { element := element[driver.value := params[driver.value].items[i]]; }
    r := RenderOnce(bundle, bs, element, rules);
  }

  /** `render_bindings`: one parameter map per element of the driving list, or just one. */
  method RenderBindings(bundle: string, bs: seq<Binding>, params: Params, rules: Rules) returns (r: Result<seq<Params>, CatalogError>)
    ensures r == Fanned(bundle, bs, params, rules)
  {
    hide Bound, Rendered, Narrowed;
    var driver := FindDriver(bs, params);
    var width := if driver.Some? then |params[driver.value].items| else 1;
    ghost var f := BoundAt(bundle, bs, params, rules);
    var out: seq<Params> := [];
    for i := 0 to width
      invariant Each(i, f) == Ok(out)
    {
      EachNext(width, f, i, out);
      var one := RenderElement(bundle, bs, driver, params, rules, i);
      if one.Err? { return Err(one.error); }
      out := out + [one.value];
    }
    return Ok(out);
  }

  // ----- a bound member -----

  datatype Primitives = Primitives(groups: seq<string>, sudo: seq<SudoCommand>, files: seq<ResolvedGrant>)

  function Of(p: ResolvedPermission): Primitives { Primitives(p.groups, p.sudo, p.files) }

  /** Substitute all three lists; groups first, then commands, then files. */
  function Substituted(owner: string, p: Primitives, params: Params, rules: Rules): Result<Primitives, CatalogError> {
    var g := GroupsOf(owner, p.groups, params, rules);
    if g.Err? then Err(g.error) else
    var s := CommandsOf(owner, p.sudo, params, rules);
    if s.Err? then Err(s.error) else
    var f := FilesOf(owner, p.files, params, rules);
    if f.Err? then Err(f.error) else Ok(Primitives(g.value, s.value, f.value))
  }

  function Copied(owner: string, p: Primitives, copies: seq<Params>, rules: Rules): Result<Primitives, CatalogError>
    decreases |copies|
  {
    if copies == [] then Ok(Primitives([], [], [])) else
    var before := Copied(owner, p, copies[..|copies| - 1], rules);
    if before.Err? then before else
    var r := Substituted(owner, p, copies[|copies| - 1], rules);
    if r.Err? then r else
    Ok(Primitives(before.value.groups + r.value.groups, before.value.sudo + r.value.sudo, before.value.files + r.value.files))
  }

  function Orphan(bs: seq<Binding>, rules: Rules): (r: Option<string>)
    ensures r.None? <==> forall i :: 0 <= i < |bs| ==> bs[i].param in rules
  {
    if bs == [] then None else if bs[0].param !in rules then Some(bs[0].param) else Orphan(bs[1..], rules)
  }

  predicate Binds(bs: seq<Binding>, name: string) { exists i :: 0 <= i < |bs| && bs[i].param == name }

  /** `expand_bound_member`: render the bindings under the bundle's rules, then the member under its own. */
  function Expanded(bundle: string, b: BoundMember, params: Params, rules: Rules): Result<Primitives, CatalogError> {
    var orphan := Orphan(b.edge.bindings, b.member.params);
    if orphan.Some? then Err(OrphanIncludeBinding(bundle, b.edge.id, orphan.value))
    else if exists n :: n in b.member.params && !Binds(b.edge.bindings, n) then Err(UnboundMemberParam(bundle, b.edge.id))
    else
      var copies := Fanned(bundle, b.edge.bindings, params, rules);
      if copies.Err? then Err(copies.error) else Copied(b.edge.id, Of(b.member), copies.value, b.member.params)
  }

  method SubstituteAllLists(owner: string, p: Primitives, params: Params, rules: Rules) returns (r: Result<Primitives, CatalogError>)
    ensures r == Substituted(owner, p, params, rules)
  {
    var g := SubstituteGroups(owner, p.groups, params, rules);
    if g.Err? { return Err(g.error); }
    var s := SubstituteCommands(owner, p.sudo, params, rules);
    if s.Err? { return Err(s.error); }
    var f := SubstituteFiles(owner, p.files, params, rules);
    if f.Err? { return Err(f.error); }
    return Ok(Primitives(g.value, s.value, f.value));
  }

  lemma {:induction false} CopiedStays(owner: string, p: Primitives, copies: seq<Params>, rules: Rules, i: nat)
    requires i <= |copies| && Copied(owner, p, copies[..i], rules).Err?
    ensures Copied(owner, p, copies, rules) == Copied(owner, p, copies[..i], rules)
    decreases |copies|
  {
    if i < |copies| {
      assert copies[..|copies| - 1][..i] == copies[..i];
      CopiedStays(owner, p, copies[..|copies| - 1], rules, i);
    } else {
      assert copies[..i] == copies;
    }
  }

  method ExpandBoundMember(bundle: string, b: BoundMember, params: Params, rules: Rules) returns (r: Result<Primitives, CatalogError>)
    ensures r == Expanded(bundle, b, params, rules)
  {
    var bs := b.edge.bindings;
    for i := 0 to |bs|
      invariant Orphan(bs[i..], b.member.params) == Orphan(bs, b.member.params)
    {
      assert bs[i..][1..] == bs[i + 1..];
      if bs[i].param !in b.member.params {
        return Err(OrphanIncludeBinding(bundle, b.edge.id, bs[i].param));
      }
    }
    if exists n :: n in b.member.params && !Binds(bs, n) {
      return Err(UnboundMemberParam(bundle, b.edge.id));
    }
    var copies := RenderBindings(bundle, bs, params, rules);
    if copies.Err? { return Err(copies.error); }
    r := AppendCopies(b.edge.id, Of(b.member), copies.value, b.member.params);
  }

  method AppendCopies(owner: string, p: Primitives, copies: seq<Params>, rules: Rules) returns (r: Result<Primitives, CatalogError>)
    ensures r == Copied(owner, p, copies, rules)
  {
    var out := Primitives([], [], []);
    for i := 0 to |copies|
      invariant Copied(owner, p, copies[..i], rules) == Ok(out)
    {
      assert copies[..i + 1][..i] == copies[..i];
      var one := SubstituteAllLists(owner, p, copies[i], rules);
      if one.Err? {
        CopiedStays(owner, p, copies, rules, i + 1);
        return one;
      }
      out := Primitives(out.groups + one.value.groups, out.sudo + one.value.sudo, out.files + one.value.files);
    }
    assert copies[..|copies|] == copies;
    return Ok(out);
  }
}
