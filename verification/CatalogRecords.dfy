/** The gates a catalog record passes before any resolve sees it (src/catalog.rs). */
module CatalogRecords {
  import opened Outcomes
  import opened Records
  import opened Paths
  import opened Constraints
  import opened Templates
  import opened CatalogTypes

  const RUNAS_MAX_LEN := 32

  /** The gate on a concrete sudo command or file path. */
  predicate Fit(s: string) { !HasControl(s) && !Blank(s) && Absolute(s) && !HasDotDot(s) }

  /** The gate on a command as written; a template is judged again once it is filled. */
  predicate CommandFit(s: string) { !HasControl(s) && !Blank(s) && (HasPlaceholder(s) || Absolute(s)) }

  /** The gate on a file grant as written. */
  predicate GrantFit(g: Grant) {
    && !HasControl(g.path) && !Blank(g.path)
    && (HasPlaceholder(g.path) || (Absolute(g.path) && !HasDotDot(g.path) && (EndsWithSlash(g.path) ==> g.recursive)))
  }

  /** Printable, not all blank. */
  ghost predicate Legible(s: string) {
    && (forall i :: 0 <= i < |s| ==> ' ' <= s[i] && !('\U{7F}' <= s[i] <= '\U{9F}'))
    && exists i :: 0 <= i < |s| && !IsWhitespace(s[i])
  }

  /** No component is `..`. */
  ghost predicate NeverClimbs(s: string) { !Stands(s, "..") }

  lemma GatesSpelled(s: string)
    ensures !HasControl(s) && !Blank(s) <==> Legible(s)
    ensures HasDotDot(s) <==> !NeverClimbs(s)
    ensures Fit(s) <==> Legible(s) && s[0] == '/' && NeverClimbs(s)
    ensures CommandFit(s) <==> Legible(s) && (Placeholders(s) != [] || s[0] == '/')
  {
    hide IsWhitespace, Split, Placeholders, Stands;
    ComponentsAre(s, "..");
    if !Blank(s) {
      var c :| c in s && !IsWhitespace(c);
      var i :| 0 <= i < |s| && s[i] == c;
    }
    if Legible(s) {
      var i :| 0 <= i < |s| && !IsWhitespace(s[i]);
      assert s[i] in s;
    }
    if !HasControl(s) {
      forall i | 0 <= i < |s| ensures ' ' <= s[i] && !('\U{7F}' <= s[i] <= '\U{9F}') { assert s[i] in s; }
    }
  }

  /** A file grant as written: a template, or an absolute path that never climbs and ends in a slash only when recursive. */
  lemma GrantGateSpelled(g: Grant)
    ensures GrantFit(g) <==>
            && Legible(g.path)
            && (|| Placeholders(g.path) != []
                || (g.path[0] == '/' && NeverClimbs(g.path) && (g.path[|g.path| - 1] == '/' ==> g.recursive)))
  {
    hide Legible, NeverClimbs, Placeholders, HasControl, Blank, HasDotDot;
    GatesSpelled(g.path);
    LegibleIsNotEmpty(g.path);
  }

  lemma LegibleIsNotEmpty(s: string)
    ensures Legible(s) ==> s != ""
  {
  }

  predicate Lower(c: char) { 'a' <= c <= 'z' }

  predicate PortableName(s: string) {
    s != "" && (Lower(s[0]) || s[0] == '_')
    && forall i :: 1 <= i < |s| ==> Lower(s[i]) || '0' <= s[i] <= '9' || s[i] == '_' || s[i] == '-'
  }

  /** A portable user name, optionally with one trailing `$`. */
  predicate RunasFit(s: string) {
    |s| <= RUNAS_MAX_LEN && (PortableName(s) || (s != "" && s[|s| - 1] == '$' && PortableName(s[..|s| - 1])))
  }

  /** A run-as name: a small letter or underscore first, then those, digits and dashes, perhaps one final dollar; 32 in all. */
  lemma RunasSpelled(s: string)
    ensures RunasFit(s) <==>
            && 0 < |s| <= 32 && (s[0] in SMALL || s[0] == '_')
            && (forall i :: 1 <= i < |s| - 1 ==> s[i] in SMALL || s[i] in DIGITS || s[i] == '_' || s[i] == '-')
            && (|s| > 1 ==> var c := s[|s| - 1]; c in SMALL || c in DIGITS || c == '_' || c == '-' || c == '$')
  {
    forall c: char ensures c in SMALL <==> 'a' <= c <= 'z' { SmallLetter(c); }
    forall c: char ensures c in DIGITS <==> '0' <= c <= '9' { Digit(c); }
    if s != "" && PortableName(s[..|s| - 1]) {
      assert forall i :: 0 <= i < |s| - 1 ==> s[..|s| - 1][i] == s[i];
    }
  }

  lemma Digit(c: char)
    ensures c in DIGITS <==> '0' <= c <= '9'
  {
    if '0' <= c <= '9' { assert DIGITS[(c - '0') as int] == c; }
  }

  /** A full replacement that also appends groups or commands contradicts itself. */
  lemma ContradictorySpelled(d: PermissionDef)
    ensures Contradictory(d) <==>
            d.replace && exists v :: (d.groups == Appends(d.groups.values) && v in d.groups.values) || (d.sudo == Appends(d.sudo.values) && v in d.sudo.values)
  {
    if d.groups.values != [] { assert d.groups.values[0] in d.groups.values; }
    if d.sudo.values != [] { assert d.sudo.values[0] in d.sudo.values; }
  }

  function AllPlaceholders(templates: seq<string>): (r: seq<string>)
    ensures forall n :: n in r <==> exists i :: 0 <= i < |templates| && n in Placeholders(templates[i])
    decreases |templates|
  {
    if templates == [] then [] else
    var k := |templates| - 1;
    assert forall i :: 0 <= i < k ==> templates[..k][i] == templates[i];
    AllPlaceholders(templates[..k]) + Placeholders(templates[k])
  }

  function PathsOf(files: seq<Grant>): seq<string> { seq(|files|, i requires 0 <= i < |files| => files[i].path) }

  function BindingTemplates(includes: seq<Include>): seq<string>
    decreases |includes|
  {
    if includes == [] then [] else
    var bs := includes[|includes| - 1].bindings;
    BindingTemplates(includes[..|includes| - 1]) + seq(|bs|, i requires 0 <= i < |bs| => bs[i].template)
  }

  /** Every template of a record, its include bindings among them. */
  function TemplatesOf(d: PermissionDef): seq<string> {
    d.groups.values + d.sudo.values + PathsOf(d.files) + BindingTemplates(d.includes)
  }

  predicate Contradictory(d: PermissionDef) {
    d.replace && ((d.groups.Appends? && d.groups.values != []) || (d.sudo.Appends? && d.sudo.values != []))
  }

  /** A record takes exactly the parameters it constrains. */
  predicate Constrained(d: PermissionDef) {
    && (forall n :: n in AllPlaceholders(TemplatesOf(d)) ==> n in d.params)
    && (forall n :: n in d.params ==> n in AllPlaceholders(TemplatesOf(d)))
  }

  predicate ValidRecord(d: PermissionDef) { ValidPrimitives(d) && ValidParams(d) }

  predicate ValidPrimitives(d: PermissionDef) {
    && !Contradictory(d)
    && (forall i :: 0 <= i < |d.sudo.values| ==> CommandFit(d.sudo.values[i]))
    && (d.runas.Some? ==> RunasFit(d.runas.value))
    && (forall i :: 0 <= i < |d.files| ==> GrantFit(d.files[i]))
  }

  predicate ValidParams(d: PermissionDef) {
    (forall n :: n in d.params ==> WellFormed(d.params[n])) && Constrained(d)
  }

  predicate ValidLayer(records: seq<PermissionDef>) {
    && (forall i :: 0 <= i < |records| ==> ValidRecord(records[i]))
    && (forall i, j :: 0 <= i < j < |records| ==> records[i].id != records[j].id)
  }

  predicate ValidCatalog(layers: seq<Layer>) { forall i :: 0 <= i < |layers| ==> ValidLayer(layers[i]) }

  // ----- the code -----

  method BindingDefect(d: PermissionDef) returns (r: Option<CatalogError>)
    ensures r.Some? ==> !Constrained(d)
  {
    for i := 0 to |d.includes| {
      var bs := d.includes[i].bindings;
      for j := 0 to |bs| {
        var names := ExtractPlaceholders(bs[j].template);
        for k := 0 to |names| {
          if names[k] !in d.params {
            BindingIsTemplate(d.includes, i, j);
            var ts := TemplatesOf(d);
            var at :| 0 <= at < |BindingTemplates(d.includes)| && BindingTemplates(d.includes)[at] == bs[j].template;
            assert ts[|ts| - |BindingTemplates(d.includes)| + at] == bs[j].template;
            assert names[k] in AllPlaceholders(ts);
            return Some(UnknownBundleParam(d.id, d.includes[i].id, names[k]));
          }
        }
      }
    }
    return None;
  }

  lemma {:induction false} BindingIsTemplate(includes: seq<Include>, i: nat, j: nat)
    requires i < |includes| && j < |includes[i].bindings|
    ensures includes[i].bindings[j].template in BindingTemplates(includes)
    decreases |includes|
  {
    var n := |includes| - 1;
    if i < n {
      BindingIsTemplate(includes[..n], i, j);
    } else {
      var bs := includes[n].bindings;
      assert seq(|bs|, i requires 0 <= i < |bs| => bs[i].template)[j] == bs[j].template;
    }
  }

  method ValidatePrimitives(d: PermissionDef) returns (r: Result<(), CatalogError>)
    ensures r.Ok? <==> ValidPrimitives(d)
  {
    if Contradictory(d) {
      return Err(ContradictoryRecord(d.id));
    }
    for i := 0 to |d.sudo.values|
      invariant forall k :: 0 <= k < i ==> CommandFit(d.sudo.values[k])
    {
      if !CommandFit(d.sudo.values[i]) {
        return Err(InvalidSudoCommand(d.id, d.sudo.values[i]));
      }
    }
    if d.runas.Some? && !RunasFit(d.runas.value) {
      return Err(InvalidRunas(d.id, d.runas.value));
    }
    for i := 0 to |d.files|
      invariant forall k :: 0 <= k < i ==> GrantFit(d.files[k])
    {
      if !GrantFit(d.files[i]) {
        return Err(InvalidFilePath(d.id, d.files[i].path));
      }
    }
    return Ok(());
  }

  method ValidateParams(d: PermissionDef) returns (r: Result<(), CatalogError>)
    ensures r.Ok? <==> ValidParams(d)
  {
    hide Placeholders;
    if exists n :: n in d.params && !WellFormed(d.params[n]) {
      return Err(InvalidParamConstraint(d.id));
    }
    var bad := BindingDefect(d);
    if bad.Some? {
      return Err(bad.value);
    }
    var used := AllPlaceholders(TemplatesOf(d));
    for i := 0 to |used|
      invariant forall k :: 0 <= k < i ==> used[k] in d.params
    {
      if used[i] !in d.params {
        return Err(UnconstrainedParam(d.id, used[i]));
      }
    }
    if exists n :: n in d.params && n !in used {
      return Err(OrphanParamConstraint(d.id));
    }
    return Ok(());
  }

  /** `PermissionDef::validate`: refuses exactly the records that are not valid. */
  method Validate(d: PermissionDef) returns (r: Result<(), CatalogError>)
    ensures r.Ok? <==> ValidRecord(d)
  {
    r := ValidatePrimitives(d);
    if r.Ok? {
      r := ValidateParams(d);
    }
  }

  /** Reading one layer: every record valid, no id twice. */
  method ReadLayer(records: seq<PermissionDef>) returns (r: Result<Layer, CatalogError>)
    ensures r.Ok? <==> ValidLayer(records)
    ensures r.Ok? ==> r.value == records
  {
    var out: Layer := [];
    for i := 0 to |records|
      invariant out == records[..i] && ValidLayer(records[..i])
    {
      var v := Validate(records[i]);
      if v.Err? {
        return Err(v.error);
      }
      for j := 0 to |out|
        invariant forall k :: 0 <= k < j ==> out[k].id != records[i].id
      {
        if out[j].id == records[i].id {
          return Err(NamespaceCollision(records[i].id));
        }
      }
      assert records[..i + 1] == records[..i] + [records[i]];
      out := out + [records[i]];
    }
    assert records[..|records|] == records;
    return Ok(out);
  }

  /** Reading the whole chain, base layer first. */
  method ReadChain(source: seq<seq<PermissionDef>>) returns (r: Result<seq<Layer>, CatalogError>)
    ensures r.Ok? <==> ValidCatalog(source)
    ensures r.Ok? ==> r.value == source
  {
    var out: seq<Layer> := [];
    for i := 0 to |source|
      invariant out == source[..i] && ValidCatalog(source[..i])
    {
      var layer := ReadLayer(source[i]);
      if layer.Err? {
        return Err(layer.error);
      }
      assert source[..i + 1] == source[..i] + [source[i]];
      out := out + [layer.value];
    }
    assert source[..|source|] == source;
    return Ok(out);
  }
}
