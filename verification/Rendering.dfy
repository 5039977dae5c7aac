/** Filling a template with a role's parameters (src/catalog.rs). */
module Rendering {
  import opened Outcomes
  import opened Paths
  import opened Constraints
  import opened CatalogTypes
  import opened Templates

  const FORBIDDEN := ",;&|<>()$`\"'\\*?!=#{}~"

  /** The value gate: a printable token without separators or metacharacters. */
  predicate SafeValue(v: string) {
    v != "" && forall c :: c in v ==> !IsControl(c) && !IsWhitespace(c) && c !in FORBIDDEN
  }

  lemma SafeIsPlain(v: string)
    requires SafeValue(v)
    ensures PlainText(v)
  {
    assert '{' in FORBIDDEN && '}' in FORBIDDEN;
  }

  // ----- what the role must supply -----

  /** A scalar that passed the value gate and the constraint declared for its name. */
  predicate ScalarOk(name: string, v: ParamValue, constraints: map<string, ParamConstraint>) {
    v.Scalar? && SafeValue(v.text) && name in constraints && Accepts(constraints[name], v.text)
  }

  predicate ValueOk(name: string, v: ParamValue, constraints: map<string, ParamConstraint>) {
    match v
    case Items(xs) => forall i :: 0 <= i < |xs| ==> ScalarOk(name, xs[i], constraints)
    case _ => ScalarOk(name, v, constraints)
  }

  /** Every name has a good value, and at most one of them is a list. */
  predicate Supplied(names: seq<string>, params: map<string, ParamValue>, constraints: map<string, ParamConstraint>) {
    && (forall n :: n in names ==> n in params && ValueOk(n, params[n], constraints))
    && (forall a, b :: a in names && b in names && params[a].Items? && params[b].Items? ==> a == b)
  }

  function ListName(names: seq<string>, params: map<string, ParamValue>): (r: Option<string>)
    ensures r.Some? ==> r.value in names && r.value in params && params[r.value].Items?
    ensures r.None? ==> forall n :: n in names && n in params ==> !params[n].Items?
  {
    if names == [] then None
    else if names[0] in params && params[names[0]].Items? then Some(names[0])
    else ListName(names[1..], params)
  }

  function Width(names: seq<string>, params: map<string, ParamValue>): nat {
    var l := ListName(names, params);
    if l.Some? then |params[l.value].items| else 1
  }

  /** The text a value contributes to the i-th copy. */
  function Pick(v: ParamValue, i: nat): string {
    match v
    case Scalar(t) => t
    case Items(xs) => if i < |xs| && xs[i].Scalar? then xs[i].text else ""
    case Other => ""
  }

  /** The values of the i-th copy. */
  function Env(names: seq<string>, params: map<string, ParamValue>, i: nat): (r: map<string, string>)
    ensures forall n :: n in r <==> n in names && n in params
    ensures forall n :: n in r ==> r[n] == Pick(params[n], i)
    decreases |names|
  {
    if names == [] then map[] else
    var k := |names| - 1;
    assert names == names[..k] + [names[k]];
    var rest := Env(names[..k], params, i);
    if names[k] in params then rest[names[k] := Pick(params[names[k]], i)] else rest
  }

  // ----- what the code computes -----

  predicate Distinct(xs: seq<string>) { forall i, j :: 0 <= i < j < |xs| ==> xs[i] != xs[j] }

  /** First occurrences, in order. */
  function Dedup(xs: seq<string>): (r: seq<string>)
    ensures forall x :: x in r <==> x in xs
    ensures Distinct(r)
    decreases |xs|
  {
    if xs == [] then [] else
    var r := Dedup(xs[..|xs| - 1]);
    assert xs == xs[..|xs| - 1] + [xs[|xs| - 1]];
    AddDistinct(r, xs[|xs| - 1])
  }

  function AddDistinct(r: seq<string>, x: string): (q: seq<string>)
    requires Distinct(r)
    ensures Distinct(q) && forall y :: y in q <==> y in r || y == x
  {
    if x in r then r else r + [x]
  }

  function Names(template: string): seq<string> { Dedup(Placeholders(template)) }

  function Scalars(names: seq<string>, params: map<string, ParamValue>): seq<Sub>
    decreases |names|
  {
    if names == [] then [] else
    var n := names[|names| - 1];
    Scalars(names[..|names| - 1], params) + (if n in params && params[n].Scalar? then [Sub(n, params[n].text)] else [])
  }

  /** Scalars in placeholder order, then the one list. */
  function SubsAt(names: seq<string>, params: map<string, ParamValue>, i: nat): seq<Sub> {
    var l := ListName(names, params);
    Scalars(names, params) + (if l.Some? then [Sub(l.value, Pick(params[l.value], i))] else [])
  }

  function Instance(template: string, params: map<string, ParamValue>, i: nat): string {
    SubstituteAll(template, SubsAt(Names(template), params, i))
  }

  function ScalarDefect(permission: string, name: string, v: ParamValue, constraints: map<string, ParamConstraint>): (r: Option<CatalogError>)
    ensures r.None? <==> ScalarOk(name, v, constraints)
  {
    if !v.Scalar? || !SafeValue(v.text) then Some(InvalidParamValue(permission, name))
    else if name !in constraints || !Accepts(constraints[name], v.text) then Some(ParamConstraintViolation(permission, name))
    else None
  }

  function ItemsDefect(permission: string, name: string, xs: seq<ParamValue>, constraints: map<string, ParamConstraint>): (r: Option<CatalogError>)
    ensures r.None? <==> forall i :: 0 <= i < |xs| ==> ScalarOk(name, xs[i], constraints)
    decreases |xs|
  {
    if xs == [] then None else
    var r := ItemsDefect(permission, name, xs[..|xs| - 1], constraints);
    assert forall i :: 0 <= i < |xs| - 1 ==> xs[..|xs| - 1][i] == xs[i];
    if r.Some? then r else ScalarDefect(permission, name, xs[|xs| - 1], constraints)
  }

  function NameDefect(permission: string, before: seq<string>, name: string, params: map<string, ParamValue>, constraints: map<string, ParamConstraint>): (r: Option<CatalogError>)
    ensures r.None? <==> name in params && ValueOk(name, params[name], constraints) && (params[name].Items? ==> ListName(before, params).None?)
  {
    if name !in params then Some(MissingParam(permission, name))
    else if params[name].Items? then
      var r := ItemsDefect(permission, name, params[name].items, constraints);
      var l := ListName(before, params);
      if r.Some? then r else if l.Some? then Some(MultipleListParams(permission, l.value, name)) else None
    else ScalarDefect(permission, name, params[name], constraints)
  }

  /** The first thing wrong with the supplied values, in placeholder order. */
  function Defects(permission: string, names: seq<string>, params: map<string, ParamValue>, constraints: map<string, ParamConstraint>): Option<CatalogError>
    decreases |names|
  {
    if names == [] then None else
    var r := Defects(permission, names[..|names| - 1], params, constraints);
    if r.Some? then r
    else NameDefect(permission, names[..|names| - 1], names[|names| - 1], params, constraints)
  }

  function Copies(template: string, params: map<string, ParamValue>): (out: seq<string>)
    ensures |out| == Width(Names(template), params)
    ensures forall i :: 0 <= i < |out| ==> out[i] == Instance(template, params, i)
  {
    seq(Width(Names(template), params), i requires i >= 0 => Instance(template, params, i))
  }

  function Rendered(permission: string, template: string, params: map<string, ParamValue>, constraints: map<string, ParamConstraint>): Result<seq<string>, CatalogError> {
    var d := Defects(permission, Names(template), params, constraints);
    if d.Some? then Err(d.value)
    else Ok(Copies(template, params))
  }

  lemma {:induction false} ListNameLast(names: seq<string>, n: string, params: map<string, ParamValue>)
    ensures ListName(names + [n], params)
         == if ListName(names, params).Some? then ListName(names, params)
            else if n in params && params[n].Items? then Some(n) else None
    decreases |names|
  {
    if names == [] {
      assert [n][1..] == [];
    } else {
      assert (names + [n])[1..] == names[1..] + [n];
      ListNameLast(names[1..], n, params);
    }
  }

  // ----- the code -----

  method CheckItems(permission: string, name: string, xs: seq<ParamValue>, constraints: map<string, ParamConstraint>)
    returns (r: Result<seq<string>, CatalogError>)
    ensures r.Err? ==> ItemsDefect(permission, name, xs, constraints) == Some(r.error)
    ensures r.Ok? ==> ItemsDefect(permission, name, xs, constraints).None? && |r.value| == |xs|
    ensures r.Ok? ==> forall i :: 0 <= i < |xs| ==> r.value[i] == Pick(Items(xs), i)
  {
    var elems: seq<string> := [];
    for i := 0 to |xs|
      invariant ItemsDefect(permission, name, xs[..i], constraints).None?
      invariant |elems| == i && forall k :: 0 <= k < i ==> elems[k] == Pick(Items(xs), k)
    {
      assert xs[..i + 1][..i] == xs[..i];
      var d := ScalarDefect(permission, name, xs[i], constraints);
      if d.Some? {
        ItemsDefectStays(permission, name, xs, constraints, i + 1);
        return Err(d.value);
      }
      elems := elems + [xs[i].text];
    }
    assert xs[..|xs|] == xs;
    return Ok(elems);
  }

  lemma {:induction false} ItemsDefectStays(permission: string, name: string, xs: seq<ParamValue>, constraints: map<string, ParamConstraint>, i: nat)
    requires i <= |xs| && ItemsDefect(permission, name, xs[..i], constraints).Some?
    ensures ItemsDefect(permission, name, xs, constraints) == ItemsDefect(permission, name, xs[..i], constraints)
    decreases |xs|
  {
    if i < |xs| {
      assert xs[..|xs| - 1][..i] == xs[..i];
      ItemsDefectStays(permission, name, xs[..|xs| - 1], constraints, i);
    } else {
      assert xs[..i] == xs;
    }
  }

  lemma {:induction false} DefectsStay(permission: string, names: seq<string>, params: map<string, ParamValue>, constraints: map<string, ParamConstraint>, i: nat)
    requires i <= |names| && Defects(permission, names[..i], params, constraints).Some?
    ensures Defects(permission, names, params, constraints) == Defects(permission, names[..i], params, constraints)
    decreases |names|
  {
    if i < |names| {
      assert names[..|names| - 1][..i] == names[..i];
      DefectsStay(permission, names[..|names| - 1], params, constraints, i);
    } else {
      assert names[..i] == names;
    }
  }

  method DistinctNames(template: string) returns (names: seq<string>)
    ensures names == Names(template)
  {
    var all := ExtractPlaceholders(template);
    names := [];
    for i := 0 to |all|
      invariant names == Dedup(all[..i])
    {
      assert all[..i + 1][..i] == all[..i];
      names := AddDistinct(names, all[i]);
    }
    assert all[..|all|] == all;
  }

  datatype Gathered = Gathered(scalars: seq<Sub>, list: Option<(string, seq<string>)>)

  /** What the gathered list stands for. */
  ghost predicate ListIs(names: seq<string>, params: map<string, ParamValue>, list: Option<(string, seq<string>)>) {
    var l := ListName(names, params);
    if l.None? then list.None?
    else
      && list.Some? && list.value.0 == l.value && |list.value.1| == |params[l.value].items|
      && forall i :: 0 <= i < |list.value.1| ==> list.value.1[i] == Pick(params[l.value], i)
  }

  lemma NothingYet(permission: string, params: map<string, ParamValue>, constraints: map<string, ParamConstraint>)
    ensures Defects(permission, [], params, constraints).None? && Scalars([], params) == [] && ListIs([], params, None)
  {
  }

  lemma NextName(permission: string, names: seq<string>, i: nat, params: map<string, ParamValue>, constraints: map<string, ParamConstraint>)
    requires i < |names| && Defects(permission, names[..i], params, constraints).None?
    ensures Defects(permission, names[..i + 1], params, constraints) == NameDefect(permission, names[..i], names[i], params, constraints)
    ensures Scalars(names[..i + 1], params) ==
            Scalars(names[..i], params) + (if names[i] in params && params[names[i]].Scalar? then [Sub(names[i], params[names[i]].text)] else [])
    ensures names[..i + 1] == names[..i] + [names[i]]
  {
    assert names[..i + 1][..i] == names[..i];
  }

  lemma ListGrows(names: seq<string>, name: string, params: map<string, ParamValue>, list: Option<(string, seq<string>)>, elems: seq<string>)
    requires ListIs(names, params, list)
    ensures list.Some? <==> ListName(names, params).Some?
    ensures list.Some? ==> Some(list.value.0) == ListName(names, params) && ListIs(names + [name], params, list)
    ensures name !in params || !params[name].Items? ==> ListIs(names + [name], params, list)
    ensures (&& list.None? && name in params && params[name].Items? && |elems| == |params[name].items|
             && (forall i :: 0 <= i < |elems| ==> elems[i] == Pick(params[name], i))) ==>
              ListIs(names + [name], params, Some((name, elems)))
  {
    ListNameLast(names, name, params);
  }

  /** Split the values into scalars and the one list, refusing at the first defect. */
  method Gather(permission: string, names: seq<string>, params: map<string, ParamValue>, constraints: map<string, ParamConstraint>)
    returns (r: Result<Gathered, CatalogError>)
    ensures r.Err? ==> Defects(permission, names, params, constraints) == Some(r.error)
    ensures r.Ok? ==> Defects(permission, names, params, constraints).None?
    ensures r.Ok? ==> r.value.scalars == Scalars(names, params) && ListIs(names, params, r.value.list)
  {
    hide Defects, Scalars, ListIs, ListName, ItemsDefect, ScalarDefect, Pick, ValueOk, Accepts, SafeValue;
    var scalars: seq<Sub> := [];
    var list: Option<(string, seq<string>)> := None;
    NothingYet(permission, params, constraints);
    for i := 0 to |names|
      invariant Defects(permission, names[..i], params, constraints).None?
      invariant scalars == Scalars(names[..i], params) && ListIs(names[..i], params, list)
    {
      var name := names[i];
      NextName(permission, names, i, params, constraints);
      ListGrows(names[..i], name, params, list, []);
      var d: Option<CatalogError> := None;
      if name !in params {
        d := Some(MissingParam(permission, name));
      } else if params[name].Items? {
        var elems := CheckItems(permission, name, params[name].items, constraints);
        if elems.Err? {
          d := Some(elems.error);
        } else if list.Some? {
          d := Some(MultipleListParams(permission, list.value.0, name));
        } else {
          ListGrows(names[..i], name, params, list, elems.value);
          list := Some((name, elems.value));
        }
      } else {
        d := ScalarDefect(permission, name, params[name], constraints);
        if d.None? { scalars := scalars + [Sub(name, params[name].text)]; }
      }
      if d.Some? {
        assert d == NameDefect(permission, names[..i], name, params, constraints);
        DefectsStay(permission, names, params, constraints, i + 1);
        return Err(d.value);
      }
    }
    assert names[..|names|] == names;
    return Ok(Gathered(scalars, list));
  }

  /** Scalars first, over the whole template; then one copy per list element. */
  method RenderTemplate(permission: string, template: string, params: map<string, ParamValue>, constraints: map<string, ParamConstraint>)
    returns (r: Result<seq<string>, CatalogError>)
    ensures r == Rendered(permission, template, params, constraints)
  {
    var names := DistinctNames(template);
    if names == [] {
      OneCopy(names, params);
      assert [template] == Copies(template, params);
      return Ok([template]);
    }
    var g := Gather(permission, names, params, constraints);
    if g.Err? {
      return Err(g.error);
    }
    var base := ApplyScalars(template, g.value.scalars);
    if g.value.list.None? {
      OneCopy(names, params);
      assert [base] == Copies(template, params);
      return Ok([base]);
    }
    var out := ApplyList(base, g.value.list.value.0, g.value.list.value.1);
    forall i | 0 <= i < |out|
      ensures out[i] == Instance(template, params, i)
    {
      LastSub(template, g.value.scalars, Sub(g.value.list.value.0, g.value.list.value.1[i]));
    }
    assert out == Copies(template, params);
    return Ok(out);
  }

  method ApplyScalars(template: string, scalars: seq<Sub>) returns (base: string)
    ensures base == SubstituteAll(template, scalars)
  {
    base := template;
    for i := 0 to |scalars|
      invariant base == SubstituteAll(template, scalars[..i])
    {
      assert scalars[..i + 1][..i] == scalars[..i];
      base := SubstituteOne(base, scalars[i].name, scalars[i].value);
    }
    assert scalars[..|scalars|] == scalars;
  }

  method ApplyList(base: string, name: string, elems: seq<string>) returns (out: seq<string>)
    ensures |out| == |elems| && forall i :: 0 <= i < |elems| ==> out[i] == SubstituteOne(base, name, elems[i])
  {
    out := [];
    for i := 0 to |elems|
      invariant |out| == i && forall k :: 0 <= k < i ==> out[k] == SubstituteOne(base, name, elems[k])
    {
      out := out + [SubstituteOne(base, name, elems[i])];
    }
  }

  lemma OneCopy(names: seq<string>, params: map<string, ParamValue>)
    requires ListName(names, params).None?
    ensures SubsAt(names, params, 0) == Scalars(names, params) && Width(names, params) == 1
  {
  }

  lemma LastSub(template: string, subs: seq<Sub>, last: Sub)
    ensures SubstituteAll(template, subs + [last]) == SubstituteOne(SubstituteAll(template, subs), last.name, last.value)
  {
    assert (subs + [last])[..|subs|] == subs;
  }

  // ----- what it means -----

  /** Rendering succeeds exactly when every placeholder is supplied with an acceptable value and one list at most. */
  lemma {:induction false} DefectFreeIff(permission: string, names: seq<string>, params: map<string, ParamValue>, constraints: map<string, ParamConstraint>)
    requires Distinct(names)
    ensures Defects(permission, names, params, constraints).None? <==> Supplied(names, params, constraints)
    decreases |names|
  {
    hide ValueOk, Supplied, NameDefect;
    if names == [] {
      NothingNeeded(params, constraints);
    } else {
      var before, n := names[..|names| - 1], names[|names| - 1];
      assert names == before + [n];
      assert n !in before;
      DefectFreeIff(permission, before, params, constraints);
      OneMoreSupplied(before, n, params, constraints);
    }
  }

  lemma NothingNeeded(params: map<string, ParamValue>, constraints: map<string, ParamConstraint>)
    ensures Supplied([], params, constraints)
  {
  }

  lemma OneMoreSupplied(names: seq<string>, n: string, params: map<string, ParamValue>, constraints: map<string, ParamConstraint>)
    requires n !in names
    ensures Supplied(names + [n], params, constraints) <==>
            && Supplied(names, params, constraints) && n in params && ValueOk(n, params[n], constraints)
            && (params[n].Items? ==> ListName(names, params).None?)
  {
    hide ValueOk, ListName;
    assert forall x :: x in names + [n] <==> x in names || x == n;
  }

  lemma {:induction false} ScalarsAre(names: seq<string>, params: map<string, ParamValue>)
    requires Distinct(names)
    ensures forall k :: k in Scalars(names, params) ==> k.name in names && k.name in params && params[k.name] == Scalar(k.value)
    ensures DistinctSubs(Scalars(names, params))
    decreases |names|
  {
    if names != [] {
      var before, n := names[..|names| - 1], names[|names| - 1];
      assert names == before + [n];
      assert n !in before;
      ScalarsAre(before, params);
      var s := Scalars(before, params);
      assert forall k :: 0 <= k < |s| ==> s[k] in s;
    }
  }

  lemma EnvOfLast(subs: seq<Sub>, last: Sub)
    ensures EnvOf(subs + [last]) == EnvOf(subs)[last.name := last.value]
  {
    assert (subs + [last])[..|subs|] == subs;
  }

  function ScalarEnv(names: seq<string>, params: map<string, ParamValue>): (r: map<string, string>)
    ensures forall n :: n in r <==> n in names && n in params && params[n].Scalar?
    ensures forall n :: n in r ==> r[n] == params[n].text
    decreases |names|
  {
    if names == [] then map[] else
    var k := |names| - 1;
    assert names == names[..k] + [names[k]];
    var rest := ScalarEnv(names[..k], params);
    if names[k] in params && params[names[k]].Scalar? then rest[names[k] := params[names[k]].text] else rest
  }

  lemma {:induction false} ScalarsFill(names: seq<string>, params: map<string, ParamValue>)
    ensures EnvOf(Scalars(names, params)) == ScalarEnv(names, params)
    decreases |names|
  {
    if names != [] {
      var before, n := names[..|names| - 1], names[|names| - 1];
      assert names == before + [n];
      ScalarsFill(before, params);
      if n in params && params[n].Scalar? {
        EnvOfLast(Scalars(before, params), Sub(n, params[n].text));
      } else {
        assert Scalars(names, params) == Scalars(before, params);
      }
    }
  }

  lemma SubsAtFill(names: seq<string>, params: map<string, ParamValue>, constraints: map<string, ParamConstraint>, i: nat)
    requires Supplied(names, params, constraints)
    ensures EnvOf(SubsAt(names, params, i)) == Env(names, params, i)
  {
    hide Env, ScalarEnv, Scalars, EnvOf, SafeValue, Accepts;
    ScalarsFill(names, params);
    var l := ListName(names, params);
    forall n | n in names ensures params[n].Scalar? || l == Some(n) {
      assert ValueOk(n, params[n], constraints);
    }
    if l.Some? {
      EnvOfLast(Scalars(names, params), Sub(l.value, Pick(params[l.value], i)));
      assert ScalarEnv(names, params)[l.value := Pick(params[l.value], i)] == Env(names, params, i);
    } else {
      assert SubsAt(names, params, i) == Scalars(names, params);
      assert ScalarEnv(names, params) == Env(names, params, i);
    }
  }

  lemma PickedOk(names: seq<string>, params: map<string, ParamValue>, constraints: map<string, ParamConstraint>, i: nat, n: string)
    requires Supplied(names, params, constraints) && i < Width(names, params) && n in names
    ensures ScalarOk(n, Scalar(Pick(params[n], i)), constraints)
  {
  }

  lemma SubsAtGood(names: seq<string>, params: map<string, ParamValue>, constraints: map<string, ParamConstraint>, i: nat)
    requires Distinct(names) && Supplied(names, params, constraints) && i < Width(names, params)
    requires forall n :: n in names ==> n != "" && '}' !in n
    ensures GoodSubs(SubsAt(names, params, i))
  {
    hide ListName, Distinct, Supplied;
    ScalarsAre(names, params);
    var subs, scalars := SubsAt(names, params, i), Scalars(names, params);
    forall k | 0 <= k < |subs|
      ensures subs[k].name in names && PlainText(subs[k].value)
    {
      if k < |scalars| { assert scalars[k] in scalars; }
      PickedOk(names, params, constraints, i, subs[k].name);
      SafeIsPlain(subs[k].value);
    }
    assert forall k :: 0 <= k < |scalars| ==> scalars[k] in scalars;
  }

  lemma NamesAreGood(template: string)
    ensures forall n :: n in Names(template) <==> n in HoleNames(Parse(template))
    ensures forall n :: n in Names(template) ==> n != "" && '}' !in n
  {
    ParseIsTidy(template);
    HolesAreNames(Parse(template));
  }

  /** The order in which the code replaces the names of a template, and whether an earlier one breaks a later one open. */
  predicate ClashFree(template: string, params: map<string, ParamValue>) {
    forall i :: 0 <= i < Width(Names(template), params) ==> NoClash(template, SubsAt(Names(template), params, i))
  }

  /**
   Rendering succeeds exactly when every placeholder has an acceptable value and at most one is a list.
   It then gives one string, or one per list element in order, and each is the template with all holes
   filled at once by values the constraints accept, with no placeholder left.
   */
  lemma RenderMeaning(permission: string, template: string, params: map<string, ParamValue>, constraints: map<string, ParamConstraint>)
    ensures var r := Rendered(permission, template, params, constraints);
            && (r.Ok? <==> Supplied(Names(template), params, constraints))
            && (r.Ok? ==> |r.value| == Width(Names(template), params))
            && (r.Ok? ==> forall i :: 0 <= i < |r.value| ==> FilledSafely(template, params, constraints, i))
            && (r.Ok? && ClashFree(template, params) ==>
                  forall i :: 0 <= i < |r.value| ==>
                    r.value[i] == Fill(template, Env(Names(template), params, i)) && Placeholders(r.value[i]) == [])
  {
    var names := Names(template);
    NamesAreGood(template);
    DefectFreeIff(permission, names, params, constraints);
    if Supplied(names, params, constraints) {
      forall i | 0 <= i < Width(names, params)
        ensures FilledSafely(template, params, constraints, i)
        ensures NoClash(template, SubsAt(names, params, i)) ==>
                  && Instance(template, params, i) == Fill(template, Env(names, params, i))
                  && Placeholders(Instance(template, params, i)) == []
      {
        SubsAtFill(names, params, constraints, i);
        SubsAtGood(names, params, constraints, i);
        forall n | n in names ensures ScalarOk(n, Scalar(Env(names, params, i)[n]), constraints) {
          PickedOk(names, params, constraints, i, n);
        }
        if NoClash(template, SubsAt(names, params, i)) {
          SequentialIsSimultaneous(template, SubsAt(names, params, i));
          EnvIsPlain(SubsAt(names, params, i));
          ParseIsTidy(template);
          FilledHasNoHoles(Parse(template), Env(names, params, i));
        }
      }
    }
  }

  /** The values of the i-th copy, one for every placeholder, all accepted. */
  predicate FilledSafely(template: string, params: map<string, ParamValue>, constraints: map<string, ParamConstraint>, i: nat) {
    forall n :: n in Placeholders(template) ==>
      n in Env(Names(template), params, i) && ScalarOk(n, Scalar(Env(Names(template), params, i)[n]), constraints)
  }

  /** The text of a template outside its placeholders. */
  function Surround(ps: Pieces): string {
    match ps
    case End(t) => t
    case Next(t, n, r) => t + ((if n == "" then "{}" else "") + Surround(r))
  }

  /** What could end an argument, a command or a rule: blanks, control characters, a comma, a shell character. */
  predicate Breaks(c: char) {
    IsWhitespace(c) || IsControl(c) || c in ",;&|<>()$`\"'\\*?!=#{}~"
  }

  lemma {:induction false} FillingNeverBreaks(ps: Pieces, env: map<string, string>, c: char)
    requires Breaks(c) && forall n :: n in HoleNames(ps) ==> n in env && SafeValue(env[n])
    ensures multiset(Print(ps, env))[c] == multiset(Surround(ps))[c]
  {
    match ps
    case End(_) =>
    case Next(t, n, r) =>
      assert forall m :: m in HoleNames(r) ==> m in HoleNames(ps);
      FillingNeverBreaks(r, env, c);
      if n != "" {
        assert n in HoleNames(ps);
        assert c !in env[n];
      }
  }

  /** No value breaks a template apart: whatever separates in a copy separated in the template's own text, as often. */
  lemma ValuesNeverBreak(permission: string, template: string, params: map<string, ParamValue>, constraints: map<string, ParamConstraint>, i: nat, c: char)
    requires Rendered(permission, template, params, constraints).Ok? && i < Width(Names(template), params)
    requires ClashFree(template, params) && Breaks(c)
    ensures multiset(Rendered(permission, template, params, constraints).value[i])[c] == multiset(Surround(Parse(template)))[c]
  {
    hide Rendered, Env, Parse, Print, Breaks, SafeValue, Accepts, Width, HoleNames, Surround;
    RenderMeaning(permission, template, params, constraints);
    assert FilledSafely(template, params, constraints, i);
    forall n | n in HoleNames(Parse(template))
      ensures n in Env(Names(template), params, i) && SafeValue(Env(Names(template), params, i)[n])
    {
      assert n in Placeholders(template);
    }
    FillingNeverBreaks(Parse(template), Env(Names(template), params, i), c);
  }

  lemma BraceFreeIsClashFree(template: string, params: map<string, ParamValue>)
    requires BraceFree(Placeholders(template))
    ensures ClashFree(template, params)
  {
    forall i | 0 <= i < Width(Names(template), params)
      ensures NoClash(template, SubsAt(Names(template), params, i))
    {
      BraceFreeNeverClash(template, SubsAt(Names(template), params, i));
    }
  }
}
