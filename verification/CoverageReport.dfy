/** The covered set, the verdict on each surface object, and the totals of the report (src/coverage.rs). */
module CoverageReport {
  import opened Outcomes
  import opened Records
  import opened Paths
  import opened Templates
  import opened CatalogTypes
  import opened Grants
  import opened Leaf
  import opened Rendering
  import opened Resolver
  import opened CoverageIndex

  // ----- the covered set -----

  datatype Role = Role(sudo: seq<string>, groups: seq<string>, files: seq<ResolvedGrant>)

  datatype CoveredSet = CoveredSet(
    binaries: set<string>, groups: set<string>, units: set<string>,
    serviceAdmin: bool, capabilityAdmin: bool, files: seq<ResolvedGrant>)

  /** A `{` with a `}` somewhere after it. */
  predicate Templated(s: string) { !NoClose(s) }

  /** The binary a catalog command makes reachable; a template counts only when not strict, and then by its fixed first word. */
  function CommandBinary(command: string, strict: bool): Option<string> {
    var t := BinaryToken(command);
    if !Templated(command) then t
    else if strict || t.None? || '{' in t.value then None
    else t
  }

  function Tokens(s: string): seq<string>
    decreases |s|
  {
    var t := SkipBlank(s);
    SkipShortens(s);
    if t == "" then [] else
    var w := UntilBlank(t);
    UntilIsPrefix(t);
    [w] + Tokens(t[|w|..])
  }

  lemma {:induction false} SkipShortens(s: string)
    ensures |SkipBlank(s)| <= |s|
    ensures SkipBlank(s) != "" ==> !IsWhitespace(SkipBlank(s)[0])
  {
    if s != "" && IsWhitespace(s[0]) { SkipShortens(s[1..]); }
  }

  lemma {:induction false} UntilIsPrefix(s: string)
    ensures UntilBlank(s) <= s && (s != "" && !IsWhitespace(s[0]) ==> UntilBlank(s) != "")
  {
    if s != "" && !IsWhitespace(s[0]) { UntilIsPrefix(s[1..]); }
  }

  const SYSTEMCTL_VERBS := {"start", "stop", "restart", "status", "is-active", "reset-failed", "enable", "disable", "daemon-reload"}

  function UnitOf(command: string): Option<string> {
    var ts := Tokens(command);
    if ts == [] then None else
    var bin, last := ts[0], ts[|ts| - 1];
    if !EndsWith(bin, "/systemctl") && bin != "systemctl" then None
    else if last == bin || (last != "" && last[0] == '-') || last in SYSTEMCTL_VERBS then None
    else Some(last)
  }

  function BaseUnit(unit: string): string { if EndsWith(unit, ".service") then unit[..|unit| - 8] else unit }

  function UnitForms(command: string): set<string> {
    var u := UnitOf(command);
    if u.None? then {} else {BaseUnit(u.value), BaseUnit(u.value) + ".service"}
  }

  function BinariesOf(p: ResolvedPermission, strict: bool): set<string> {
    set c | c in p.sudo && CommandBinary(c.command, strict).Some? :: CommandBinary(c.command, strict).value
  }

  function Concrete(gs: seq<ResolvedGrant>): seq<ResolvedGrant>
    decreases |gs|
  {
    if gs == [] then [] else
    Concrete(gs[..|gs| - 1]) + (if Templated(gs[|gs| - 1].path) then [] else [gs[|gs| - 1]])
  }

  function CatalogFiles(ps: seq<ResolvedPermission>): seq<ResolvedGrant>
    decreases |ps|
  {
    if ps == [] then [] else CatalogFiles(ps[..|ps| - 1]) + Concrete(ps[|ps| - 1].files)
  }

  function RoleFiles(roles: seq<Role>): seq<ResolvedGrant>
    decreases |roles|
  {
    if roles == [] then [] else RoleFiles(roles[..|roles| - 1]) + roles[|roles| - 1].files
  }

  /** What the permissions, the roles and the bound groups cover together. */
  function Covered(ps: seq<ResolvedPermission>, strict: bool, roles: seq<Role>, bound: seq<string>): CoveredSet {
    CoveredSet(
      (set p, b | p in ps && b in BinariesOf(p, strict) :: b)
        + (set r, c | r in roles && c in r.sudo && BinaryToken(c).Some? :: BinaryToken(c).value),
      (set p, g | p in ps && g in p.groups :: g) + (set r, g | r in roles && g in r.groups :: g) + (set g | g in bound :: g),
      set r, c, u | r in roles && c in r.sudo && u in UnitForms(c) :: u,
      exists i :: 0 <= i < |ps| && ps[i].id == "service-admin",
      exists i :: 0 <= i < |ps| && ps[i].id == "capability-admin",
      Index(CatalogFiles(ps) + RoleFiles(roles)))
  }

  // ----- one object -----

  datatype Class = SudoBin | Config | Unit | GroupClass | CapFile | Setuid

  datatype Surface = Surface(class_: Class, key: string, orphan: bool)

  const SECURITY_PREFIXES := [
    "/etc/ssh", "/etc/pam.d", "/etc/sudoers", "/etc/sudoers.d", "/etc/sysctl.conf", "/etc/sysctl.d", "/etc/audit",
    "/etc/ssl", "/etc/pki", "/etc/ca-certificates", "/etc/ca-certificates.conf", "/etc/polkit-1", "/etc/PolicyKit",
    "/etc/systemd", "/etc/security", "/etc/apparmor.d", "/etc/selinux", "/etc/modprobe.d", "/etc/modules-load.d",
    "/etc/login.defs", "/etc/securetty", "/etc/sudo.conf", "/etc/nsswitch.conf"]

  const NON_GRANTABLE_PARENTS := [
    "/", "/etc", "/usr", "/usr/local", "/var", "/boot", "/opt", "/run", "/etc/ssl", "/etc/pki", "/etc/ca-certificates"]

  predicate SecurityRelevant(path: string) {
    exists i :: 0 <= i < |SECURITY_PREFIXES| && AtOrUnder(SECURITY_PREFIXES[i], path)
  }

  predicate InScope(path: string, grants: seq<ResolvedGrant>) { SecurityRelevant(path) || SomeCovers(grants, path) }

  function ParentDir(path: string): string {
    var parts := Split(path);
    if |parts| == 1 then path
    else var parent := Join(parts[..|parts| - 1]); if parent == "" then "/" else parent
  }

  function BaseName(path: string): string { var parts := Split(path); parts[|parts| - 1] }

  predicate ExcludedByDesign(o: Surface) {
    match o.class_
    case SudoBin =>
      var name := BaseName(o.key);
      name in {"su", "sudo", "pkexec", "newgrp", "sg"} || "pdpl" <= name || "parsec" <= name
    case GroupClass =>
      o.key in {"astra-admin", "astra-console", "sudo", "wheel", "messagebus", "crontab", "ssl-cert"}
      || "app_" <= o.key || "site_" <= o.key
    case _ => false
  }

  predicate UnitCovered(unit: string, units: set<string>) {
    unit in units || BaseUnit(unit) in units || BaseUnit(unit) + ".service" in units
  }

  predicate ObjectCovered(o: Surface, cs: CoveredSet) {
    match o.class_
    case SudoBin => o.key in cs.binaries
    case GroupClass => o.key in cs.groups
    case Unit => cs.serviceAdmin || UnitCovered(o.key, cs.units)
    case CapFile => cs.capabilityAdmin
    case _ => false
  }

  /** Where an object ends up; every object has exactly one bucket. */
  datatype Bucket = Inventory | Dropped | Excluded | Limited | Yes | Gap

  function BucketOf(o: Surface, cs: CoveredSet, low: bool): Bucket {
    if o.class_.Setuid? then Inventory
    else if o.class_.Config? && !low && !InScope(o.key, cs.files) then Dropped
    else if ExcludedByDesign(o) then Excluded
    else if o.class_.Config? then
      var g := Cover(o.key, cs.files);
      if g.Some? then (if Enforceable(g.value) then Yes else Limited)
      else if ParentDir(o.key) in NON_GRANTABLE_PARENTS then Limited else Gap
    else if ObjectCovered(o, cs) then Yes else Gap
  }

  // ----- what a verdict rests on -----

  /** A maximal run of non-blanks. */
  predicate WordAt(line: string, k: int, e: int) {
    && 0 <= k < e <= |line|
    && (forall i :: k <= i < e ==> !IsWhitespace(line[i]))
    && (k > 0 ==> IsWhitespace(line[k - 1])) && (e < |line| ==> IsWhitespace(line[e]))
  }

  /** The first word of the line: only blanks before it. */
  ghost predicate FirstWord(line: string, w: string) {
    exists k, e :: WordAt(line, k, e) && w == line[k..e] && forall i :: 0 <= i < k ==> IsWhitespace(line[i])
  }

  /** The last word of the line: only blanks after it. */
  ghost predicate LastWord(line: string, w: string) {
    exists k, e :: WordAt(line, k, e) && w == line[k..e] && forall i :: e <= i < |line| ==> IsWhitespace(line[i])
  }

  lemma {:induction false} SkipDropsBlanks(s: string)
    ensures var t := SkipBlank(s);
            && |t| <= |s| && s[|s| - |t|..] == t && (t != "" ==> !IsWhitespace(t[0]))
            && forall i :: 0 <= i < |s| - |t| ==> IsWhitespace(s[i])
  {
    if s != "" && IsWhitespace(s[0]) {
      SkipDropsBlanks(s[1..]);
      assert forall i :: 0 < i < |s| ==> s[i] == s[1..][i - 1];
    }
  }

  lemma {:induction false} UntilTakesWord(s: string)
    ensures var w := UntilBlank(s);
            && w <= s && (|w| < |s| ==> IsWhitespace(s[|w|]))
            && forall i :: 0 <= i < |w| ==> !IsWhitespace(s[i])
  {
    if s != "" && !IsWhitespace(s[0]) {
      UntilTakesWord(s[1..]);
      assert s == [s[0]] + s[1..];
      assert forall i :: 0 < i < |s| ==> s[i] == s[1..][i - 1];
    }
  }

  lemma OneFirstWord(line: string, v: string, w: string)
    requires FirstWord(line, v) && FirstWord(line, w)
    ensures v == w
  {
    hide IsWhitespace;
    var i, a :| WordAt(line, i, a) && v == line[i..a] && forall x :: 0 <= x < i ==> IsWhitespace(line[x]);
    var j, b :| WordAt(line, j, b) && w == line[j..b] && forall x :: 0 <= x < j ==> IsWhitespace(line[x]);
    assert !IsWhitespace(line[i]) && !IsWhitespace(line[j]);
    assert i == j;
    assert a == b;
  }

  lemma OneLastWord(line: string, v: string, w: string)
    requires LastWord(line, v) && LastWord(line, w)
    ensures v == w
  {
    hide IsWhitespace;
    var i, a :| WordAt(line, i, a) && v == line[i..a] && forall x :: a <= x < |line| ==> IsWhitespace(line[x]);
    var j, b :| WordAt(line, j, b) && w == line[j..b] && forall x :: b <= x < |line| ==> IsWhitespace(line[x]);
    assert !IsWhitespace(line[a - 1]) && !IsWhitespace(line[b - 1]);
    assert a == b;
    assert i == j;
  }

  /** The binary of a command is its first word. */
  lemma BinaryIsFirstWord(line: string, w: string)
    ensures BinaryToken(line) == Some(w) <==> FirstWord(line, w)
  {
    hide IsWhitespace, SkipBlank, UntilBlank;
    var t := SkipBlank(line);
    var u := UntilBlank(t);
    SkipDropsBlanks(line);
    UntilTakesWord(t);
    var k := |line| - |t|;
    if u != "" {
      assert forall i :: 0 <= i < |t| ==> t[i] == line[k + i];
      assert WordAt(line, k, k + |u|) && u == line[k..k + |u|];
      if FirstWord(line, w) { OneFirstWord(line, u, w); }
    } else {
      NoWordInBlanks(line, w) by { assert t == ""; }
    }
  }

  lemma NoWordInBlanks(line: string, w: string)
    requires forall i :: 0 <= i < |line| ==> IsWhitespace(line[i])
    ensures !FirstWord(line, w)
  {
    hide IsWhitespace;
    forall k, e | 0 <= k < e <= |line| ensures !WordAt(line, k, e) { assert IsWhitespace(line[k]); }
  }

  lemma {:induction false} LastToken(line: string)
    ensures Tokens(line) == [] <==> forall i :: 0 <= i < |line| ==> IsWhitespace(line[i])
    ensures Tokens(line) != [] ==> BinaryToken(line) == Some(Tokens(line)[0]) && LastWord(line, Tokens(line)[|Tokens(line)| - 1])
    decreases |line|
  {
    hide IsWhitespace, SkipBlank, UntilBlank;
    var t := SkipBlank(line);
    SkipDropsBlanks(line);
    if t != "" {
      var w := UntilBlank(t);
      UntilTakesWord(t);
      UntilIsPrefix(t);
      SkipShortens(line);
      var k := |line| - |t|;
      var rest := t[|w|..];
      assert forall i :: 0 <= i < |t| ==> t[i] == line[k + i];
      assert forall i :: 0 <= i < |rest| ==> rest[i] == line[k + |w| + i];
      LastToken(rest);
      assert Tokens(line) == [w] + Tokens(rest);
      if Tokens(rest) == [] {
        assert WordAt(line, k, k + |w|) && w == line[k..k + |w|];
        assert forall i :: k + |w| <= i < |line| ==> IsWhitespace(line[i]) by {
          forall i | k + |w| <= i < |line| ensures IsWhitespace(line[i]) { assert line[i] == rest[i - k - |w|]; }
        }
      } else {
        LastOfRest(line, rest, k + |w|, Tokens(rest)[|Tokens(rest)| - 1]);
      }
    }
  }

  lemma LastOfRest(line: string, rest: string, at: nat, w: string)
    requires 0 < at <= |line| && rest == line[at..] && LastWord(rest, w)
    requires at < |line| ==> IsWhitespace(line[at])
    ensures LastWord(line, w)
  {
    hide IsWhitespace;
    var k, e :| WordAt(rest, k, e) && w == rest[k..e] && forall i :: e <= i < |rest| ==> IsWhitespace(rest[i]);
    assert forall i :: 0 <= i < |rest| ==> rest[i] == line[at + i];
    assert k > 0;
    assert forall i :: at + k <= i < at + e ==> line[i] == rest[i - at];
    assert forall i :: at + e <= i < |line| ==> line[i] == rest[i - at];
    assert WordAt(line, at + k, at + e) && w == line[at + k..at + e];
  }

  /** A command that controls one unit: `systemctl` first, and last a word that is neither it, an option nor a verb. */
  ghost predicate Controls(line: string, unit: string) {
    exists bin :: FirstWord(line, bin) && LastWord(line, unit)
      && (bin == "systemctl" || EndsWith(bin, "/systemctl"))
      && unit != bin && unit != "" && unit[0] != '-' && unit !in SYSTEMCTL_VERBS
  }

  lemma UnitIsControlled(line: string, unit: string)
    ensures UnitOf(line) == Some(unit) <==> Controls(line, unit)
  {
    hide Tokens, BinaryToken, FirstWord, LastWord, EndsWith;
    LastToken(line);
    var ts := Tokens(line);
    if ts != [] {
      BinaryIsFirstWord(line, ts[0]);
      var last := ts[|ts| - 1];
      WordsAreNotEmpty(line, last);
      if Controls(line, unit) {
        var bin :| FirstWord(line, bin) && LastWord(line, unit) && (bin == "systemctl" || EndsWith(bin, "/systemctl")) && unit != bin;
        OneFirstWord(line, bin, ts[0]);
        OneLastWord(line, unit, last);
      }
    } else {
      forall w ensures !FirstWord(line, w) { NoWordInBlanks(line, w); }
    }
  }

  lemma WordsAreNotEmpty(line: string, w: string)
    requires LastWord(line, w)
    ensures w != ""
  {
  }

  lemma BaseUnitSpelled(unit: string, b: string)
    ensures unit == b + ".service" ==> BaseUnit(unit) == b
    ensures BaseUnit(unit) == unit || BaseUnit(unit) + ".service" == unit
  {
    if EndsWith(unit, ".service") { assert unit == unit[..|unit| - 8] + unit[|unit| - 8..]; }
  }

  /** A path is its directory, a slash and its last component. */
  lemma ParentSpelled(path: string)
    ensures '/' !in path ==> ParentDir(path) == path && BaseName(path) == path
    ensures '/' in path ==>
              && '/' !in BaseName(path)
              && exists p: string :: path == p + "/" + BaseName(path) && ParentDir(path) == (if p == "" then "/" else p)
  {
    hide Split, Join;
    var parts := Split(path);
    JoinSplit(path);
    ComponentsAre(path, path);
    if '/' !in path {
      WholePath(path);
    } else {
      SlashSplits(path);
      JoinPrefix(parts[..|parts| - 1], parts);
      assert parts[|parts| - 1..] == [parts[|parts| - 1]];
      LastJoins(parts[|parts| - 1]);
      assert path == Join(parts[..|parts| - 1]) + "/" + BaseName(path);
    }
  }

  lemma WholePath(path: string)
    requires '/' !in path
    ensures Split(path) == [path]
  {
    assert forall i :: 0 <= i < |path| ==> path[i] in path;
    FindIs(path, '/', |path|);
  }

  lemma SlashSplits(path: string)
    requires '/' in path
    ensures |Split(path)| > 1
  {
    FirstExists(path, '/');
    var k :| 0 <= k < |path| && FirstAt(path, '/', k);
    FindIs(path, '/', k);
  }

  lemma LastJoins(part: string)
    ensures Join([part]) == part
  {
  }

  /** The reverse lookup matches a command exactly when it and the argument begin with the same word. */
  lemma MatchedCommandSpelled(arg: string, command: string)
    ensures BinaryToken(command) == Some(QueryToken(arg)) <==> exists w :: FirstWord(command, w) && FirstWord(arg, w)
  {
    hide BinaryToken, FirstWord;
    forall w ensures BinaryToken(command) == Some(w) <==> FirstWord(command, w) { BinaryIsFirstWord(command, w); }
    forall w ensures BinaryToken(arg) == Some(w) <==> FirstWord(arg, w) { BinaryIsFirstWord(arg, w); }
    if BinaryToken(arg).None? && FirstWord(command, arg) { WordHasAWord(command, arg); }
  }

  lemma WordHasAWord(line: string, w: string)
    requires FirstWord(line, w)
    ensures FirstWord(w, w)
  {
    hide IsWhitespace;
    var k, e :| WordAt(line, k, e) && w == line[k..e] && forall i :: 0 <= i < k ==> IsWhitespace(line[i]);
    assert forall i :: 0 <= i < |w| ==> w[i] == line[k + i];
    assert WordAt(w, 0, |w|) && w == w[0..|w|];
  }

  // ----- class by class -----

  /** A permission's command starts with the binary; a template only when not strict and not in that word. Or a role's does. */
  ghost predicate BinaryGranted(ps: seq<ResolvedPermission>, strict: bool, roles: seq<Role>, bin: string) {
    || (exists p, c :: p in ps && c in p.sudo && FirstWord(c.command, bin) && (Templated(c.command) ==> !strict && '{' !in bin))
    || (exists r, c :: r in roles && c in r.sudo && FirstWord(c, bin))
  }

  ghost predicate GroupGranted(ps: seq<ResolvedPermission>, roles: seq<Role>, bound: seq<string>, g: string) {
    || (exists p :: p in ps && g in p.groups) || (exists r :: r in roles && g in r.groups) || g in bound
  }

  /** A role controls the unit, under its name with or without `.service`. */
  ghost predicate UnitGranted(ps: seq<ResolvedPermission>, roles: seq<Role>, unit: string) {
    || (exists p :: p in ps && p.id == "service-admin")
    || (exists r, c, u :: r in roles && c in r.sudo && Controls(c, u) && UnitCovered(unit, {BaseUnit(u), BaseUnit(u) + ".service"}))
  }

  lemma BinaryGrantedIff(ps: seq<ResolvedPermission>, strict: bool, roles: seq<Role>, bound: seq<string>, bin: string)
    ensures bin in Covered(ps, strict, roles, bound).binaries <==> BinaryGranted(ps, strict, roles, bin)
  {
    hide BinaryToken, FirstWord, Templated, UnitForms, Index;
    forall line: string ensures BinaryToken(line) == Some(bin) <==> FirstWord(line, bin) { BinaryIsFirstWord(line, bin); }
    forall p | p in ps
      ensures bin in BinariesOf(p, strict) <==>
              exists c :: c in p.sudo && FirstWord(c.command, bin) && (Templated(c.command) ==> !strict && '{' !in bin)
    {
      forall c: SudoCommand ensures CommandBinary(c.command, strict) == Some(bin) <==>
        FirstWord(c.command, bin) && (Templated(c.command) ==> !strict && '{' !in bin) { }
    }
  }

  lemma UnitGrantedIff(ps: seq<ResolvedPermission>, strict: bool, roles: seq<Role>, bound: seq<string>, unit: string)
    ensures var cs := Covered(ps, strict, roles, bound);
            cs.serviceAdmin || UnitCovered(unit, cs.units) <==> UnitGranted(ps, roles, unit)
  {
    hide BinariesOf, BinaryToken, Index, UnitOf, Controls, BaseUnit;
    forall c: string, u: string ensures UnitOf(c) == Some(u) <==> Controls(c, u) { UnitIsControlled(c, u); }
    var cs := Covered(ps, strict, roles, bound);
    if p :| p in ps && p.id == "service-admin" {
      var i :| 0 <= i < |ps| && ps[i] == p;
    }
    if UnitCovered(unit, cs.units) {
      var form :| form in cs.units && (form == unit || form == BaseUnit(unit) || form == BaseUnit(unit) + ".service");
      var r, c :| r in roles && c in r.sudo && form in UnitForms(c);
      assert Controls(c, UnitOf(c).value);
    }
    if r, c, u :| r in roles && c in r.sudo && Controls(c, u) && UnitCovered(unit, {BaseUnit(u), BaseUnit(u) + ".service"}) {
      assert UnitForms(c) == {BaseUnit(u), BaseUnit(u) + ".service"};
      assert UnitForms(c) <= cs.units;
    }
  }

  /** What a covered verdict rests on, class by class. */
  ghost predicate Grounded(o: Surface, ps: seq<ResolvedPermission>, strict: bool, roles: seq<Role>, bound: seq<string>) {
    match o.class_
    case SudoBin => BinaryGranted(ps, strict, roles, o.key)
    case GroupClass => GroupGranted(ps, roles, bound, o.key)
    case Unit => UnitGranted(ps, roles, o.key)
    case CapFile => exists p :: p in ps && p.id == "capability-admin"
    case Config => Enforced(Index(CatalogFiles(ps) + RoleFiles(roles)), o.key)
    case Setuid => false
  }

  /** An object is covered exactly when it is not excluded by design and something it rests on is granted. */
  lemma CoveredIff(ps: seq<ResolvedPermission>, strict: bool, roles: seq<Role>, bound: seq<string>, o: Surface, low: bool)
    ensures BucketOf(o, Covered(ps, strict, roles, bound), low) == Yes <==>
            !ExcludedByDesign(o) && Grounded(o, ps, strict, roles, bound)
  {
    hide BinariesOf, BinaryToken, UnitForms, Index, Cover, Enforced, SomeCovers, SecurityRelevant, ExcludedByDesign, ParentDir, BinaryGranted, UnitGranted, UnitCovered;
    var cs := Covered(ps, strict, roles, bound);
    match o.class_
    case SudoBin => BinaryGrantedIff(ps, strict, roles, bound, o.key);
    case Unit => UnitGrantedIff(ps, strict, roles, bound, o.key);
    case CapFile =>
      if p :| p in ps && p.id == "capability-admin" {
        var i :| 0 <= i < |ps| && ps[i] == p;
      }
    case Config =>
      EnforcedIff(o.key, cs.files);
      CoverIsStrongest(o.key, cs.files);
    case _ =>
  }

  /** And every other verdict, over the grants themselves. */
  lemma BucketExactly(ps: seq<ResolvedPermission>, strict: bool, roles: seq<Role>, bound: seq<string>, o: Surface, low: bool)
    ensures var bucket, grants := BucketOf(o, Covered(ps, strict, roles, bound), low), CatalogFiles(ps) + RoleFiles(roles);
            && (bucket == Inventory <==> o.class_ == Setuid)
            && (bucket == Excluded <==> o.class_ != Setuid && ExcludedByDesign(o))
            && (bucket == Dropped <==>
                  && o.class_ == Config && !low && !SomeCovers(grants, o.key)
                  && forall p :: p in SECURITY_PREFIXES ==> !AtOrUnder(p, o.key))
            && (bucket == Limited <==>
                  && o.class_ == Config && bucket != Dropped && !Grounded(o, ps, strict, roles, bound)
                  && (SomeCovers(grants, o.key) || ParentDir(o.key) in NON_GRANTABLE_PARENTS))
  {
    hide BinariesOf, UnitForms, Index, Cover, Enforced, SomeCovers, ParentDir, AtOrUnder, BinaryGranted, UnitGranted, UnitCovered;
    if o.class_ == Config {
      var grants := CatalogFiles(ps) + RoleFiles(roles);
      IndexCovers(grants, o.key);
      CoveredIff(ps, strict, roles, bound, o, low);
      CoverIsStrongest(o.key, Index(grants));
      assert SecurityRelevant(o.key) <==> exists p :: p in SECURITY_PREFIXES && AtOrUnder(p, o.key) by {
        if SecurityRelevant(o.key) {
          var i :| 0 <= i < |SECURITY_PREFIXES| && AtOrUnder(SECURITY_PREFIXES[i], o.key);
          assert SECURITY_PREFIXES[i] in SECURITY_PREFIXES;
        }
      }
    }
  }

  lemma {:induction false} CatalogFilesHold(ps: seq<ResolvedPermission>, g: ResolvedGrant)
    ensures g in CatalogFiles(ps) <==> exists p :: p in ps && g in p.files && !Templated(g.path)
    decreases |ps|
  {
    hide Templated, Concrete;
    if ps != [] {
      var n := |ps| - 1;
      CatalogFilesHold(ps[..n], g);
      ConcreteHolds(ps[n].files, g);
      assert ps == ps[..n] + [ps[n]];
    }
  }

  lemma {:induction false} ConcreteHolds(gs: seq<ResolvedGrant>, g: ResolvedGrant)
    ensures g in Concrete(gs) <==> g in gs && !Templated(g.path)
    decreases |gs|
  {
    if gs != [] {
      ConcreteHolds(gs[..|gs| - 1], g);
      assert gs == gs[..|gs| - 1] + [gs[|gs| - 1]];
    }
  }

  lemma {:induction false} RoleFilesHold(roles: seq<Role>, g: ResolvedGrant)
    ensures g in RoleFiles(roles) <==> exists r :: r in roles && g in r.files
    decreases |roles|
  {
    if roles != [] {
      var n := |roles| - 1;
      RoleFilesHold(roles[..n], g);
      assert roles == roles[..n] + [roles[n]];
    }
  }

  /** The file grants behind a configuration verdict: a permission's without a placeholder, and every role's. */
  lemma ConfigRestsOn(ps: seq<ResolvedPermission>, roles: seq<Role>, g: ResolvedGrant)
    ensures g in CatalogFiles(ps) + RoleFiles(roles) <==>
            (exists p :: p in ps && g in p.files && !Templated(g.path)) || (exists r :: r in roles && g in r.files)
  {
    hide Templated;
    CatalogFilesHold(ps, g);
    RoleFilesHold(roles, g);
  }

  // ----- more coverage never uncovers -----

  ghost predicate Extends(a: CoveredSet, b: CoveredSet) {
    && a.binaries <= b.binaries && a.groups <= b.groups && a.units <= b.units
    && (a.serviceAdmin ==> b.serviceAdmin) && (a.capabilityAdmin ==> b.capabilityAdmin)
    && (forall p: string :: SomeCovers(a.files, p) ==> SomeCovers(b.files, p))
    && (forall p: string :: Enforced(a.files, p) ==> Enforced(b.files, p))
  }

  lemma PushEnforces(acc: seq<ResolvedGrant>, g: ResolvedGrant, path: string)
    requires Enforced(acc, path)
    ensures Enforced(Push(acc, g), path)
  {
    hide AtOrUnder;
    var i :| 0 <= i < |acc| && Covers(acc[i], path) && Enforceable(acc[i]);
    var out := Push(acc, g);
    assert Covers(out[i], path) && Enforceable(out[i]);
  }

  lemma {:induction false} IndexGrows(gs: seq<ResolvedGrant>, more: seq<ResolvedGrant>, path: string)
    ensures SomeCovers(Index(gs), path) ==> SomeCovers(Index(gs + more), path)
    ensures Enforced(Index(gs), path) ==> Enforced(Index(gs + more), path)
    decreases |more|
  {
    hide Covers, Push;
    if more == [] {
      assert gs + more == gs;
    } else {
      var n := |more| - 1;
      IndexGrows(gs, more[..n], path);
      var all := gs + more;
      assert all[..|all| - 1] == gs + more[..n];
      PushCovers(Index(gs + more[..n]), more[n], path);
      if Enforced(Index(gs + more[..n]), path) { PushEnforces(Index(gs + more[..n]), more[n], path); }
    }
  }

  lemma {:induction false} RoleFilesAppend(a: seq<Role>, b: seq<Role>)
    ensures RoleFiles(a + b) == RoleFiles(a) + RoleFiles(b)
    decreases |b|
  {
    if b == [] {
      assert a + b == a;
    } else {
      assert (a + b)[..|a + b| - 1] == a + b[..|b| - 1];
      RoleFilesAppend(a, b[..|b| - 1]);
    }
  }

  lemma MoreExtends(ps: seq<ResolvedPermission>, strict: bool, roles: seq<Role>, more: seq<Role>, bound: seq<string>, extra: seq<string>)
    ensures Extends(Covered(ps, strict, roles, bound), Covered(ps, strict, roles + more, bound + extra))
  {
    hide Index, BinariesOf, UnitForms, BinaryToken, SomeCovers, Enforced;
    var a, b := Covered(ps, strict, roles, bound), Covered(ps, strict, roles + more, bound + extra);
    assert forall r :: r in roles ==> r in roles + more;
    assert forall g :: g in bound ==> g in bound + extra;
    assert a.binaries <= b.binaries;
    assert a.groups <= b.groups;
    assert a.units <= b.units;
    RoleFilesAppend(roles, more);
    assert CatalogFiles(ps) + RoleFiles(roles + more) == (CatalogFiles(ps) + RoleFiles(roles)) + RoleFiles(more);
    forall p: string
      ensures SomeCovers(a.files, p) ==> SomeCovers(b.files, p)
      ensures Enforced(a.files, p) ==> Enforced(b.files, p)
    {
      IndexGrows(CatalogFiles(ps) + RoleFiles(roles), RoleFiles(more), p);
    }
  }

  lemma EnforcedIff(path: string, gs: seq<ResolvedGrant>)
    ensures (Cover(path, gs).Some? && Enforceable(Cover(path, gs).value)) <==> Enforced(gs, path)
  {
    hide Covers, Enforceable;
    CoverIsStrongest(path, gs);
    if Cover(path, gs).Some? { CoverIsEnforceableIff(path, gs); }
    if Enforced(gs, path) {
      var i :| 0 <= i < |gs| && Covers(gs[i], path) && Enforceable(gs[i]);
      assert gs[i] in gs;
    }
  }

  /** Adding roles or bound groups never makes a covered object uncovered. */
  lemma CoverageIsMonotone(ps: seq<ResolvedPermission>, strict: bool, roles: seq<Role>, more: seq<Role>, bound: seq<string>, extra: seq<string>, o: Surface, low: bool)
    requires BucketOf(o, Covered(ps, strict, roles, bound), low) == Yes
    ensures BucketOf(o, Covered(ps, strict, roles + more, bound + extra), low) == Yes
  {
    hide Covered, Cover, Enforced, SomeCovers, SecurityRelevant, ExcludedByDesign, ParentDir;
    var a, b := Covered(ps, strict, roles, bound), Covered(ps, strict, roles + more, bound + extra);
    MoreExtends(ps, strict, roles, more, bound, extra);
    EnforcedIff(o.key, a.files);
    EnforcedIff(o.key, b.files);
  }

  // ----- the report -----

  datatype Verdict = Verdict(object_: Surface, covered: bool, excluded: bool, limited: bool)

  datatype Tally = Tally(class_: Class, covered: nat, total: nat)

  datatype Report = Report(byClass: seq<Tally>, objects: seq<Verdict>, setuid: seq<Surface>, anomalies: seq<Surface>, overall: real)

  const GRANT_CLASSES := [SudoBin, Config, Unit, GroupClass, CapFile]

  function Count<T>(xs: seq<T>, p: T -> bool): (n: nat)
    ensures n <= |xs|
    decreases |xs|
  {
    if xs == [] then 0 else Count(xs[..|xs| - 1], p) + (if p(xs[|xs| - 1]) then 1 else 0)
  }

  function InBucket(cs: CoveredSet, low: bool, b: Bucket): Surface -> bool { (o: Surface) => BucketOf(o, cs, low) == b }

  function CountedAs(cs: CoveredSet, low: bool, c: Class, b: Bucket): Surface -> bool {
    (o: Surface) => o.class_ == c && BucketOf(o, cs, low) == b
  }

  /** The verdicts the report lists: all objects except the inventory and the dropped ones, in order. */
  function Verdicts(surface: seq<Surface>, cs: CoveredSet, low: bool): seq<Verdict>
    decreases |surface|
  {
    if surface == [] then [] else
    var o := surface[|surface| - 1];
    var b := BucketOf(o, cs, low);
    Verdicts(surface[..|surface| - 1], cs, low)
      + (if b == Inventory || b == Dropped then [] else [Verdict(o, b == Yes, b == Excluded, b == Limited)])
  }

  function Filtered(surface: seq<Surface>, p: Surface -> bool): seq<Surface>
    decreases |surface|
  {
    if surface == [] then [] else
    Filtered(surface[..|surface| - 1], p) + (if p(surface[|surface| - 1]) then [surface[|surface| - 1]] else [])
  }

  function IsSetuid(): Surface -> bool { (o: Surface) => o.class_.Setuid? }

  function IsAnomaly(): Surface -> bool { (o: Surface) => o.orphan && (o.class_.Setuid? || o.class_.CapFile?) }

  function TallyOf(surface: seq<Surface>, cs: CoveredSet, low: bool, c: Class): (t: Tally)
    ensures t.class_ == c && t.covered <= t.total
  {
    Tally(c, Count(surface, CountedAs(cs, low, c, Yes)),
      Count(surface, CountedAs(cs, low, c, Yes)) + Count(surface, CountedAs(cs, low, c, Gap)))
  }

  function Sum(ts: seq<Tally>): (nat, nat)
    decreases |ts|
  {
    if ts == [] then (0, 0) else
    var s := Sum(ts[..|ts| - 1]);
    (s.0 + ts[|ts| - 1].covered, s.1 + ts[|ts| - 1].total)
  }

  /** All covered objects over all counted ones; an empty surface counts as fully covered. */
  function Weighted(ts: seq<Tally>): real {
    var s := Sum(ts);
    if s.1 == 0 then 100.0 else s.0 as real * 100.0 / s.1 as real
  }

  predicate TalliesAre(counts: seq<Tally>, surface: seq<Surface>, cs: CoveredSet, low: bool) {
    |counts| == |GRANT_CLASSES| && forall k :: 0 <= k < |counts| ==> counts[k] == TallyOf(surface, cs, low, GRANT_CLASSES[k])
  }

  function Bumped(t: Tally, o: Surface, covered: bool): Tally {
    if t.class_ != o.class_ then t else Tally(t.class_, t.covered + (if covered then 1 else 0), t.total + 1)
  }

  /** One object's effect on the running counts. */
  method TallyObject(counts: seq<Tally>, o: Surface, covered: bool) returns (out: seq<Tally>)
    ensures |out| == |counts|
    ensures forall k :: 0 <= k < |out| ==> out[k] == Bumped(counts[k], o, covered)
  {
    out := [];
    for k := 0 to |counts|
      invariant |out| == k && forall j :: 0 <= j < k ==> out[j] == Bumped(counts[j], o, covered)
    {
      var slot := counts[k];
      if slot.class_ == o.class_ {
        slot := slot.(total := slot.total + 1);
        if covered { slot := slot.(covered := slot.covered + 1); }
      }
      out := out + [slot];
    }
  }

  lemma TallyGrows(counts: seq<Tally>, surface: seq<Surface>, i: nat, cs: CoveredSet, low: bool, out: seq<Tally>)
    requires i < |surface| && TalliesAre(counts, surface[..i], cs, low) && |out| == |counts|
    requires var b := BucketOf(surface[i], cs, low);
             forall k :: 0 <= k < |out| ==> out[k] == if b == Yes || b == Gap then Bumped(counts[k], surface[i], b == Yes) else counts[k]
    ensures TalliesAre(out, surface[..i + 1], cs, low)
  {
    hide BucketOf;
    assert surface[..i + 1][..i] == surface[..i];
  }

  /** `coverage_scoped`: each object goes to its bucket, the counted ones into the class totals. */
  method CoverageScoped(surface: seq<Surface>, cs: CoveredSet, low: bool) returns (r: Report)
    ensures r.objects == Verdicts(surface, cs, low)
    ensures r.setuid == Filtered(surface, IsSetuid()) && r.anomalies == Filtered(surface, IsAnomaly())
    ensures TalliesAre(r.byClass, surface, cs, low) && r.overall == Weighted(r.byClass)
  {
    hide InScope, ExcludedByDesign, ObjectCovered, Cover, ParentDir, TalliesAre, Weighted;
    var objects: seq<Verdict>, setuid: seq<Surface>, anomalies: seq<Surface> := [], [], [];
    var counts := [Tally(SudoBin, 0, 0), Tally(Config, 0, 0), Tally(Unit, 0, 0), Tally(GroupClass, 0, 0), Tally(CapFile, 0, 0)];
    assert TalliesAre(counts, [], cs, low) by { EmptyTallies(counts, cs, low); }
    for i := 0 to |surface|
      invariant objects == Verdicts(surface[..i], cs, low)
      invariant setuid == Filtered(surface[..i], IsSetuid()) && anomalies == Filtered(surface[..i], IsAnomaly())
      invariant TalliesAre(counts, surface[..i], cs, low)
    {
      assert surface[..i + 1][..i] == surface[..i];
      var o := surface[i];
      if o.orphan && (o.class_.Setuid? || o.class_.CapFile?) { anomalies := anomalies + [o]; }
      var before := counts;
      if o.class_.Setuid? {
        setuid := setuid + [o];
      } else if o.class_.Config? && !low && !InScope(o.key, cs.files) {
      } else if ExcludedByDesign(o) {
        objects := objects + [Verdict(o, false, true, false)];
      } else {
        var limited, covered := false, false;
        if o.class_.Config? {
          var g := ConfigGrantCover(o.key, cs.files);
          covered := g.Some? && Enforceable(g.value);
          limited := !covered && (g.Some? || ParentDir(o.key) in NON_GRANTABLE_PARENTS);
        } else {
          covered := ObjectCovered(o, cs);
        }
        if !limited { counts := TallyObject(counts, o, covered); }
        objects := objects + [Verdict(o, covered, false, limited)];
      }
      TallyGrows(before, surface, i, cs, low, counts);
    }
    assert surface[..|surface|] == surface;
    r := Report(counts, objects, setuid, anomalies, Weighted(counts));
  }

  lemma EmptyTallies(counts: seq<Tally>, cs: CoveredSet, low: bool)
    requires counts == [Tally(SudoBin, 0, 0), Tally(Config, 0, 0), Tally(Unit, 0, 0), Tally(GroupClass, 0, 0), Tally(CapFile, 0, 0)]
    ensures TalliesAre(counts, [], cs, low)
  {
  }

  // ----- the accounting -----

  function Listed(c: Class, covered: bool): Verdict -> bool {
    (v: Verdict) => v.object_.class_ == c && !v.excluded && !v.limited && v.covered == covered
  }

  /** Each class's figures are the sizes of the matching parts of the listed verdicts. */
  lemma {:induction false} TotalsMatchTheList(surface: seq<Surface>, cs: CoveredSet, low: bool, c: Class)
    ensures Count(Verdicts(surface, cs, low), Listed(c, true)) == TallyOf(surface, cs, low, c).covered
    ensures Count(Verdicts(surface, cs, low), Listed(c, true)) + Count(Verdicts(surface, cs, low), Listed(c, false)) == TallyOf(surface, cs, low, c).total
    decreases |surface|
  {
    hide BucketOf, Count, TallyOf;
    if surface == [] {
      NothingCounted(cs, low, c);
    } else {
      var n := |surface| - 1;
      TotalsMatchTheList(surface[..n], cs, low, c);
      TallyLast(surface, cs, low, c);
      var before, b := Verdicts(surface[..n], cs, low), BucketOf(surface[n], cs, low);
      if b == Inventory || b == Dropped {
        assert Verdicts(surface, cs, low) == before;
      } else {
        var v := Verdict(surface[n], b == Yes, b == Excluded, b == Limited);
        CountLast(before, v, Listed(c, true));
        CountLast(before, v, Listed(c, false));
      }
    }
  }

  lemma NothingCounted(cs: CoveredSet, low: bool, c: Class)
    ensures TallyOf([], cs, low, c) == Tally(c, 0, 0)
    ensures Count([], Listed(c, true)) == 0 && Count([], Listed(c, false)) == 0
  {
  }

  lemma TallyLast(surface: seq<Surface>, cs: CoveredSet, low: bool, c: Class)
    requires surface != []
    ensures var o := surface[|surface| - 1];
            var b := BucketOf(o, cs, low);
            var before := TallyOf(surface[..|surface| - 1], cs, low, c);
            TallyOf(surface, cs, low, c) == if b == Yes || b == Gap then Bumped(before, o, b == Yes) else before
  {
    hide BucketOf;
  }

  lemma CountLast<T>(xs: seq<T>, x: T, p: T -> bool)
    ensures Count(xs + [x], p) == Count(xs, p) + if p(x) then 1 else 0
  {
    assert (xs + [x])[..|xs|] == xs;
  }

  /** Every object is in exactly one place: the inventory, the dropped, or one kind of listed verdict. */
  lemma {:induction false} EveryObjectIsAccountedFor(surface: seq<Surface>, cs: CoveredSet, low: bool)
    ensures |surface| == |Filtered(surface, IsSetuid())| + Count(surface, InBucket(cs, low, Dropped)) + |Verdicts(surface, cs, low)|
    ensures |Verdicts(surface, cs, low)|
         == Count(surface, InBucket(cs, low, Excluded)) + Count(surface, InBucket(cs, low, Limited))
            + Count(surface, InBucket(cs, low, Yes)) + Count(surface, InBucket(cs, low, Gap))
    decreases |surface|
  {
    hide InScope, ExcludedByDesign, ObjectCovered, Cover, ParentDir;
    if surface != [] { EveryObjectIsAccountedFor(surface[..|surface| - 1], cs, low); }
  }

  lemma {:induction false} SetuidIsNeverCounted(surface: seq<Surface>, cs: CoveredSet, low: bool, b: Bucket)
    requires b == Yes || b == Gap
    ensures Count(surface, InBucket(cs, low, b))
         == Count(surface, CountedAs(cs, low, SudoBin, b)) + Count(surface, CountedAs(cs, low, Config, b))
            + Count(surface, CountedAs(cs, low, Unit, b)) + Count(surface, CountedAs(cs, low, GroupClass, b))
            + Count(surface, CountedAs(cs, low, CapFile, b))
    decreases |surface|
  {
    hide InScope, ExcludedByDesign, ObjectCovered, Cover, ParentDir;
    if surface != [] { SetuidIsNeverCounted(surface[..|surface| - 1], cs, low, b); }
  }

  lemma SumOfFive(ts: seq<Tally>)
    requires |ts| == 5
    ensures Sum(ts) == (ts[0].covered + ts[1].covered + ts[2].covered + ts[3].covered + ts[4].covered,
                        ts[0].total + ts[1].total + ts[2].total + ts[3].total + ts[4].total)
  {
    assert ts[..4][..3] == ts[..3] && ts[..3][..2] == ts[..2] && ts[..2][..1] == ts[..1] && ts[..1][..0] == [];
    assert Sum(ts[..1]) == (ts[0].covered, ts[0].total);
    assert Sum(ts[..2]).0 == Sum(ts[..1]).0 + ts[1].covered;
    assert Sum(ts[..3]).0 == Sum(ts[..2]).0 + ts[2].covered;
    assert Sum(ts[..4]).0 == Sum(ts[..3]).0 + ts[3].covered;
  }

  /** The overall figure lies between 0 and 100, and is 100 exactly when nothing counted is a gap. */
  lemma OverallIsAPercentage(surface: seq<Surface>, cs: CoveredSet, low: bool, ts: seq<Tally>)
    requires TalliesAre(ts, surface, cs, low)
    ensures Sum(ts).0 == Count(surface, InBucket(cs, low, Yes))
    ensures Sum(ts).1 == Count(surface, InBucket(cs, low, Yes)) + Count(surface, InBucket(cs, low, Gap))
    ensures 0.0 <= Weighted(ts) <= 100.0
    ensures Weighted(ts) == 100.0 <==> Count(surface, InBucket(cs, low, Gap)) == 0
  {
    hide BucketOf, Count, Sum;
    SetuidIsNeverCounted(surface, cs, low, Yes);
    SetuidIsNeverCounted(surface, cs, low, Gap);
    SumOfFive(ts);
    assert ts[0] == TallyOf(surface, cs, low, SudoBin) && ts[1] == TallyOf(surface, cs, low, Config);
    assert ts[2] == TallyOf(surface, cs, low, Unit) && ts[3] == TallyOf(surface, cs, low, GroupClass);
    assert ts[4] == TallyOf(surface, cs, low, CapFile);
    PercentageBounds(Sum(ts).0, Sum(ts).1);
  }

  lemma PercentageBounds(covered: nat, total: nat)
    requires covered <= total
    ensures total > 0 ==> 0.0 <= covered as real * 100.0 / total as real <= 100.0
    ensures total > 0 ==> (covered as real * 100.0 / total as real == 100.0 <==> covered == total)
  {
    if total > 0 {
      var q := covered as real * 100.0 / total as real;
      assert q * total as real == covered as real * 100.0;
      ScaleBounds(q, total as real, covered as real * 100.0);
    }
  }

  lemma ScaleBounds(q: real, t: real, c: real)
    requires t > 0.0 && q * t == c && 0.0 <= c <= 100.0 * t
    ensures 0.0 <= q <= 100.0
    ensures q == 100.0 <==> c == 100.0 * t
  {
    assert (100.0 - q) * t == 100.0 * t - c;
  }

  // ----- building the covered set from a catalog -----

  function IdsOf(defs: seq<PermissionDef>): seq<string> { seq(|defs|, i requires 0 <= i < |defs| => defs[i].id) }

  /** The permissions that resolve, one per id; an id that does not is skipped. */
  function Resolvable(layers: seq<Layer>, ids: seq<string>): seq<ResolvedPermission>
    decreases |ids|
  {
    if ids == [] then [] else
    var r := Resolution(layers, ids[|ids| - 1], []);
    Resolvable(layers, ids[..|ids| - 1]) + (if r.Ok? then [r.value] else [])
  }

  method ResolveAllIds(layers: seq<Layer>) returns (ps: seq<ResolvedPermission>)
    ensures ps == Resolvable(layers, Dedup(IdsOf(AllDefs(layers))))
  {
    hide Resolution;
    var ids := Dedup(IdsOf(AllDefs(layers)));
    ps := [];
    for i := 0 to |ids|
      invariant ps == Resolvable(layers, ids[..i])
    {
      assert ids[..i + 1][..i] == ids[..i];
      var r, stack := ResolveInner(layers, ids[i], []);
      if r.Ok? { ps := ps + [r.value]; }
    }
    assert ids[..|ids|] == ids;
  }

  method ConcreteGrants(gs: seq<ResolvedGrant>) returns (out: seq<ResolvedGrant>)
    ensures out == Concrete(gs)
  {
    out := [];
    for i := 0 to |gs|
      invariant out == Concrete(gs[..i])
    {
      assert gs[..i + 1][..i] == gs[..i];
      if !Templated(gs[i].path) { out := out + [gs[i]]; }
    }
    assert gs[..|gs|] == gs;
  }

  method FoldCatalog(ps: seq<ResolvedPermission>, strict: bool) returns (binaries: set<string>, groups: set<string>)
    ensures binaries == (set p, b | p in ps && b in BinariesOf(p, strict) :: b)
    ensures groups == (set p, g | p in ps && g in p.groups :: g)
  {
    hide BinariesOf;
    binaries, groups := {}, {};
    for i := 0 to |ps|
      invariant binaries == (set p, b | p in ps[..i] && b in BinariesOf(p, strict) :: b)
      invariant groups == (set p, g | p in ps[..i] && g in p.groups :: g)
    {
      assert ps[..i + 1] == ps[..i] + [ps[i]];
      binaries := binaries + BinariesOf(ps[i], strict);
      groups := groups + (set g | g in ps[i].groups);
    }
    assert ps[..|ps|] == ps;
  }

  method FoldFilesAndFlags(ps: seq<ResolvedPermission>) returns (service: bool, capability: bool, files: seq<ResolvedGrant>)
    ensures service <==> exists i :: 0 <= i < |ps| && ps[i].id == "service-admin"
    ensures capability <==> exists i :: 0 <= i < |ps| && ps[i].id == "capability-admin"
    ensures files == CatalogFiles(ps)
  {
    hide Concrete;
    service, capability, files := false, false, [];
    for i := 0 to |ps|
      invariant service <==> exists k :: 0 <= k < i && ps[k].id == "service-admin"
      invariant capability <==> exists k :: 0 <= k < i && ps[k].id == "capability-admin"
      invariant files == CatalogFiles(ps[..i])
    {
      assert ps[..i + 1][..i] == ps[..i];
      service := service || ps[i].id == "service-admin";
      capability := capability || ps[i].id == "capability-admin";
      var more := ConcreteGrants(ps[i].files);
      files := files + more;
    }
    assert ps[..|ps|] == ps;
  }

  method FoldRoles(roles: seq<Role>) returns (binaries: set<string>, groups: set<string>, units: set<string>, files: seq<ResolvedGrant>)
    ensures binaries == (set r, c | r in roles && c in r.sudo && BinaryToken(c).Some? :: BinaryToken(c).value)
    ensures groups == (set r, g | r in roles && g in r.groups :: g)
    ensures units == (set r, c, u | r in roles && c in r.sudo && u in UnitForms(c) :: u)
    ensures files == RoleFiles(roles)
  {
    hide UnitForms, BinaryToken;
    binaries, groups, units, files := {}, {}, {}, [];
    for i := 0 to |roles|
      invariant binaries == (set r, c | r in roles[..i] && c in r.sudo && BinaryToken(c).Some? :: BinaryToken(c).value)
      invariant groups == (set r, g | r in roles[..i] && g in r.groups :: g)
      invariant units == (set r, c, u | r in roles[..i] && c in r.sudo && u in UnitForms(c) :: u)
      invariant files == RoleFiles(roles[..i])
    {
      assert roles[..i + 1][..i] == roles[..i] && roles[..i + 1] == roles[..i] + [roles[i]];
      var r := roles[i];
      binaries := binaries + (set c | c in r.sudo && BinaryToken(c).Some? :: BinaryToken(c).value);
      groups := groups + (set g | g in r.groups);
      units := units + (set c, u | c in r.sudo && u in UnitForms(c) :: u);
      files := files + r.files;
    }
    assert roles[..|roles|] == roles;
  }

  /** `build_covered_set`: every id that resolves, then the roles, then the bound groups. */
  method BuildCoveredSet(layers: seq<Layer>, strict: bool, roles: seq<Role>, bound: seq<string>) returns (cs: CoveredSet)
    ensures cs == Covered(Resolvable(layers, Dedup(IdsOf(AllDefs(layers)))), strict, roles, bound)
  {
    hide BinariesOf, UnitForms, BinaryToken, Resolvable, Index;
    var ps := ResolveAllIds(layers);
    var binaries, groups := FoldCatalog(ps, strict);
    var service, capability, files := FoldFilesAndFlags(ps);
    var more, named, units, extra := FoldRoles(roles);
    var index := BuildIndex(files + extra);
    cs := CoveredSet(binaries + more, groups + named + (set g | g in bound), units, service, capability, index);
  }
}
