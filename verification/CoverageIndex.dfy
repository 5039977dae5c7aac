/** The covered-grant index, the forward cover and the reverse lookup (src/coverage.rs). */
module CoverageIndex {
  import opened Outcomes
  import opened Records
  import opened Paths
  import opened CatalogTypes
  import opened Grants

  // ----- which paths a grant covers -----

  predicate Covers(g: ResolvedGrant, path: string) {
    g.path == path || (g.recursive && AtOrUnder(g.path, path))
  }

  predicate SomeCovers(gs: seq<ResolvedGrant>, path: string) {
    exists i :: 0 <= i < |gs| && Covers(gs[i], path)
  }

  /** Under a recursive grant, coverage is the prefix relation on path components. */
  lemma RecursiveCoverIsComponentPrefix(g: ResolvedGrant, path: string)
    requires g.recursive
    ensures Covers(g, path) <==> g.path == path || Split(Stem(g.path)) <= Split(path)
  {
    AtOrUnderIsComponentPrefix(g.path, path);
  }

  // ----- the index -----

  function Absorbed(e: ResolvedGrant, g: ResolvedGrant): ResolvedGrant {
    var recursive := e.recursive || g.recursive;
    ResolvedGrant(e.path, e.access + g.access, recursive, if recursive then Dir else e.shape)
  }

  /** `push_unique_grant`: a known path absorbs the grant, a new one is appended. */
  function Push(acc: seq<ResolvedGrant>, g: ResolvedGrant): seq<ResolvedGrant> {
    var k := IndexOfPath(acc, g.path);
    if k < |acc| then acc[k := Absorbed(acc[k], g)] else acc + [g]
  }

  function Index(gs: seq<ResolvedGrant>): seq<ResolvedGrant>
    decreases |gs|
  {
    if gs == [] then [] else Push(Index(gs[..|gs| - 1]), gs[|gs| - 1])
  }

  method BuildIndex(gs: seq<ResolvedGrant>) returns (acc: seq<ResolvedGrant>)
    ensures acc == Index(gs)
  {
    acc := [];
    for i := 0 to |gs|
      invariant acc == Index(gs[..i])
    {
      assert gs[..i + 1][..i] == gs[..i];
      var k := IndexOfPath(acc, gs[i].path);
      if k < |acc| {
        acc := acc[k := Absorbed(acc[k], gs[i])];
      } else {
        acc := acc + [gs[i]];
      }
    }
    assert gs[..|gs|] == gs;
  }

  lemma PushCovers(acc: seq<ResolvedGrant>, g: ResolvedGrant, path: string)
    ensures SomeCovers(Push(acc, g), path) <==> SomeCovers(acc, path) || Covers(g, path)
  {
    hide AtOrUnder;
    var k, out := IndexOfPath(acc, g.path), Push(acc, g);
    if SomeCovers(acc, path) {
      var i :| 0 <= i < |acc| && Covers(acc[i], path);
      assert Covers(out[i], path);
    }
    if Covers(g, path) { assert Covers(out[k], path); }
  }

  /** Merging preserves exactly which paths are covered. */
  lemma {:induction false} IndexCovers(gs: seq<ResolvedGrant>, path: string)
    ensures SomeCovers(Index(gs), path) <==> SomeCovers(gs, path)
    decreases |gs|
  {
    hide Covers;
    if gs != [] {
      var n := |gs| - 1;
      IndexCovers(gs[..n], path);
      PushCovers(Index(gs[..n]), gs[n], path);
      assert forall i :: 0 <= i < n ==> gs[..n][i] == gs[i];
    }
  }

  /** What the index says of a path is what the raw grants say of it. */
  lemma {:induction false} IndexSays(gs: seq<ResolvedGrant>, f: GrantFact)
    ensures Holds(Index(gs), f) <==> Holds(gs, f)
    ensures UniquePaths(Index(gs))
    decreases |gs|
  {
    if gs != [] {
      var n := |gs| - 1;
      IndexSays(gs[..n], f);
      PushSays(Index(gs[..n]), gs[n], f);
      assert forall i :: 0 <= i < n ==> gs[..n][i] == gs[i];
    }
  }

  lemma PushSays(acc: seq<ResolvedGrant>, g: ResolvedGrant, f: GrantFact)
    ensures Holds(Push(acc, g), f) <==> Holds(acc, f) || Says(g, f)
    ensures UniquePaths(acc) ==> UniquePaths(Push(acc, g))
  {
    var k, out := IndexOfPath(acc, g.path), Push(acc, g);
    if Holds(acc, f) {
      var i :| 0 <= i < |acc| && Says(acc[i], f);
      assert Says(out[i], f);
    }
    if Says(g, f) { assert Says(out[k], f); }
  }

  // ----- the stored shape -----

  /** A glob path stated more than once, at least once recursively. */
  predicate GlobRepeats(gs: seq<ResolvedGrant>) {
    exists i, j :: 0 <= i < j < |gs| && gs[i].path == gs[j].path && HasGlob(gs[i].path) && (Holds(gs, Deep(gs[i].path)))
  }

  predicate Repeated(gs: seq<ResolvedGrant>, path: string) {
    exists i, j :: 0 <= i < j < |gs| && gs[i].path == path && gs[j].path == path
  }

  /** The stored shape of an entry: derived, except that a repeated recursive path is always a directory. */
  predicate ShapeIs(gs: seq<ResolvedGrant>, e: ResolvedGrant) {
    e.shape == if Repeated(gs, e.path) && e.recursive then Dir else ShapeOf(e.path, e.recursive)
  }

  lemma {:induction false} IndexShapes(gs: seq<ResolvedGrant>, k: nat)
    requires WellShaped(gs) && k < |Index(gs)|
    ensures ShapeIs(gs, Index(gs)[k])
    decreases |gs|
  {
    var n := |gs| - 1;
    var before, g := gs[..n], gs[n];
    assert forall i :: 0 <= i < n ==> before[i] == gs[i];
    IndexSays(before, OnPath(g.path));
    var at := IndexOfPath(Index(before), g.path);
    if at < |Index(before)| && k == at {
      IndexShapes(before, k);
      assert Says(Index(before)[at], OnPath(g.path));
      var i :| 0 <= i < n && Says(before[i], OnPath(g.path));
      assert gs[i].path == g.path && gs[n].path == g.path;
      if Repeated(before, g.path) { RepeatedStays(gs, g.path); }
    } else if k < |Index(before)| {
      IndexShapes(before, k);
      RepeatedElsewhere(gs, Index(before)[k].path);
    } else {
      assert !Holds(before, OnPath(g.path));
      NotRepeated(gs);
    }
  }

  lemma RepeatedStays(gs: seq<ResolvedGrant>, path: string)
    requires gs != [] && Repeated(gs[..|gs| - 1], path)
    ensures Repeated(gs, path)
  {
    var i, j :| 0 <= i < j < |gs| - 1 && gs[..|gs| - 1][i].path == path && gs[..|gs| - 1][j].path == path;
    assert gs[i].path == path && gs[j].path == path;
  }

  lemma RepeatedElsewhere(gs: seq<ResolvedGrant>, path: string)
    requires gs != [] && gs[|gs| - 1].path != path
    ensures Repeated(gs, path) <==> Repeated(gs[..|gs| - 1], path)
  {
    if Repeated(gs[..|gs| - 1], path) { RepeatedStays(gs, path); }
    if Repeated(gs, path) {
      var i, j :| 0 <= i < j < |gs| && gs[i].path == path && gs[j].path == path;
      assert gs[..|gs| - 1][i].path == path && gs[..|gs| - 1][j].path == path;
    }
  }

  lemma NotRepeated(gs: seq<ResolvedGrant>)
    requires gs != [] && !Holds(gs[..|gs| - 1], OnPath(gs[|gs| - 1].path))
    ensures !Repeated(gs, gs[|gs| - 1].path)
  {
    var n := |gs| - 1;
    assert forall i :: 0 <= i < n && gs[i].path == gs[n].path ==> Says(gs[..n][i], OnPath(gs[n].path));
  }

  /** Every stored shape is the derived one exactly when no glob path is stated twice with recursion. */
  lemma ShapesAreDerivedIff(gs: seq<ResolvedGrant>)
    requires WellShaped(gs)
    ensures WellShaped(Index(gs)) <==> !GlobRepeats(gs)
  {
    if GlobRepeats(gs) {
      var i, j :| 0 <= i < j < |gs| && gs[i].path == gs[j].path && HasGlob(gs[i].path) && Holds(gs, Deep(gs[i].path));
      var p := gs[i].path;
      IndexSays(gs, Deep(p));
      var k :| 0 <= k < |Index(gs)| && Says(Index(gs)[k], Deep(p));
      IndexShapes(gs, k);
      assert Repeated(gs, p);
      assert Index(gs)[k].shape == Dir && ShapeOf(p, true) == Pattern;
    } else {
      forall k | 0 <= k < |Index(gs)|
        ensures Index(gs)[k].shape == ShapeOf(Index(gs)[k].path, Index(gs)[k].recursive)
      {
        IndexShapes(gs, k);
        var e := Index(gs)[k];
        if Repeated(gs, e.path) && e.recursive && HasGlob(e.path) {
          IndexSays(gs, Deep(e.path));
          assert Says(Index(gs)[k], Deep(e.path));
        }
      }
    }
  }

  // ----- the forward cover -----

  predicate Enforceable(g: ResolvedGrant) { g.shape.Dir? }

  function Stronger(prev: ResolvedGrant, cand: ResolvedGrant): ResolvedGrant {
    if Enforceable(prev) != Enforceable(cand) then (if Enforceable(prev) then prev else cand)
    else if Write in prev.access then prev else cand
  }

  /** `config_grant_cover`: the strongest covering grant, if any. */
  method ConfigGrantCover(path: string, grants: seq<ResolvedGrant>) returns (best: Option<ResolvedGrant>)
    ensures best == Cover(path, grants)
  {
    best := None;
    for i := 0 to |grants|
      invariant best == Cover(path, grants[..i])
    {
      assert grants[..i + 1][..i] == grants[..i];
      if Covers(grants[i], path) {
        best := Some(if best.None? then grants[i] else Stronger(best.value, grants[i]));
      }
    }
    assert grants[..|grants|] == grants;
  }

  function Cover(path: string, grants: seq<ResolvedGrant>): Option<ResolvedGrant>
    decreases |grants|
  {
    if grants == [] then None else
    var best := Cover(path, grants[..|grants| - 1]);
    var g := grants[|grants| - 1];
    if !Covers(g, path) then best
    else if best.None? then Some(g)
    else Some(Stronger(best.value, g))
  }

  /** Enforceability first, then write access. */
  function Rank(g: ResolvedGrant): nat { (if Enforceable(g) then 2 else 0) + (if Write in g.access then 1 else 0) }

  /** The cover is found exactly when something covers, and nothing that covers outranks it. */
  lemma {:induction false} CoverIsStrongest(path: string, grants: seq<ResolvedGrant>)
    ensures Cover(path, grants).Some? <==> SomeCovers(grants, path)
    ensures Cover(path, grants).Some? ==> Cover(path, grants).value in grants && Covers(Cover(path, grants).value, path)
    ensures Cover(path, grants).Some? ==>
              forall g :: g in grants && Covers(g, path) ==> Rank(g) <= Rank(Cover(path, grants).value)
    decreases |grants|
  {
    hide Covers;
    if grants != [] {
      var n := |grants| - 1;
      CoverIsStrongest(path, grants[..n]);
      assert grants == grants[..n] + [grants[n]];
      assert forall i :: 0 <= i < n ==> grants[..n][i] == grants[i];
    }
  }

  /** So the verdict is "enforced" exactly when some covering entry is enforceable. */
  lemma CoverIsEnforceableIff(path: string, grants: seq<ResolvedGrant>)
    requires Cover(path, grants).Some?
    ensures Enforceable(Cover(path, grants).value) <==> exists g :: g in grants && Covers(g, path) && Enforceable(g)
  {
    CoverIsStrongest(path, grants);
  }

  /**
   The entry the code settles on: of the covering entries nothing outranks, the first when they may write,
   and the last when they may not. The documentation says the first in both cases.
   */
  predicate Chosen(path: string, grants: seq<ResolvedGrant>, i: nat) {
    && i < |grants| && Covers(grants[i], path)
    && (forall j :: 0 <= j < |grants| && Covers(grants[j], path) ==> Rank(grants[j]) <= Rank(grants[i]))
    && (Write in grants[i].access ==> forall j :: 0 <= j < i && Covers(grants[j], path) ==> Rank(grants[j]) < Rank(grants[i]))
    && (Write !in grants[i].access ==> forall j :: i < j < |grants| && Covers(grants[j], path) ==> Rank(grants[j]) < Rank(grants[i]))
  }

  lemma {:induction false} FindChosen(path: string, grants: seq<ResolvedGrant>) returns (i: nat)
    requires SomeCovers(grants, path)
    ensures Chosen(path, grants, i) && Cover(path, grants) == Some(grants[i])
    ensures forall j: nat :: Chosen(path, grants, j) ==> j == i
    decreases |grants|
  {
    hide Covers;
    var n := |grants| - 1;
    var init, last := grants[..n], grants[n];
    assert forall k :: 0 <= k < n ==> init[k] == grants[k];
    CoverIsStrongest(path, init);
    if !SomeCovers(init, path) {
      assert forall k :: 0 <= k < n ==> !Covers(init[k], path);
      i := n;
    } else {
      i := FindChosen(path, init);
      if Covers(last, path) && (Rank(last) > Rank(init[i]) || (Rank(last) == Rank(init[i]) && Write !in last.access)) {
        i := n;
      }
    }
    OneChosen(path, grants, i);
  }

  /** Every covered path has exactly one chosen entry, and it is the one returned. */
  lemma CoverIsChosen(path: string, grants: seq<ResolvedGrant>)
    ensures SomeCovers(grants, path) ==> exists i: nat :: Chosen(path, grants, i)
    ensures forall i: nat :: Chosen(path, grants, i) ==> Cover(path, grants) == Some(grants[i])
  {
    hide Covers, Cover;
    if SomeCovers(grants, path) {
      var i := FindChosen(path, grants);
    } else {
      assert forall i :: 0 <= i < |grants| ==> !Covers(grants[i], path);
    }
  }

  lemma OneChosen(path: string, grants: seq<ResolvedGrant>, i: nat)
    requires Chosen(path, grants, i)
    ensures forall j: nat :: Chosen(path, grants, j) ==> j == i
  {
    hide Covers;
    forall j: nat | Chosen(path, grants, j) ensures j == i {
      assert Rank(grants[i]) == Rank(grants[j]);
    }
  }

  // ----- agreement with the raw grants -----

  /** Some grant covers the path with a shape the backend can enforce. */
  predicate Enforced(gs: seq<ResolvedGrant>, path: string) {
    exists i :: 0 <= i < |gs| && Covers(gs[i], path) && Enforceable(gs[i])
  }

  /** A glob path stated more than once, recursively, that covers the path. */
  predicate RepeatedGlobCovers(gs: seq<ResolvedGrant>, path: string) {
    exists i :: 0 <= i < |gs| && HasGlob(gs[i].path) && Repeated(gs, gs[i].path) && gs[i].recursive && Covers(gs[i], path)
  }

  lemma EnforcedEntryHasSource(gs: seq<ResolvedGrant>, path: string, k: nat)
    requires WellShaped(gs) && k < |Index(gs)| && Covers(Index(gs)[k], path) && Enforceable(Index(gs)[k])
    ensures Enforced(gs, path) || RepeatedGlobCovers(gs, path)
  {
    hide AtOrUnder;
    IndexShapes(gs, k);
    var e := Index(gs)[k];
    if e.recursive {
      IndexSays(gs, Deep(e.path));
      assert Says(Index(gs)[k], Deep(e.path));
      var i :| 0 <= i < |gs| && Says(gs[i], Deep(e.path));
      assert Covers(gs[i], path) && (HasGlob(e.path) || Enforceable(gs[i]));
    } else {
      IndexSays(gs, OnPath(e.path));
      assert Says(Index(gs)[k], OnPath(e.path));
      var i :| 0 <= i < |gs| && Says(gs[i], OnPath(e.path));
      EntryNotDeep(gs, k);
      assert !Says(gs[i], Deep(e.path));
      assert Covers(gs[i], path) && Enforceable(gs[i]);
    }
  }

  lemma EntryNotDeep(gs: seq<ResolvedGrant>, k: nat)
    requires k < |Index(gs)| && !Index(gs)[k].recursive
    ensures !Holds(gs, Deep(Index(gs)[k].path))
  {
    var p := Index(gs)[k].path;
    IndexSays(gs, Deep(p));
  }

  lemma SourceHasEnforcedEntry(gs: seq<ResolvedGrant>, path: string, i: nat)
    requires WellShaped(gs) && i < |gs| && Covers(gs[i], path)
    requires Enforceable(gs[i]) || (Repeated(gs, gs[i].path) && gs[i].recursive)
    ensures exists k :: 0 <= k < |Index(gs)| && Covers(Index(gs)[k], path) && Enforceable(Index(gs)[k])
  {
    hide AtOrUnder;
    var p := gs[i].path;
    var f := if gs[i].recursive then Deep(p) else OnPath(p);
    assert Says(gs[i], f);
    IndexSays(gs, f);
    var k :| 0 <= k < |Index(gs)| && Says(Index(gs)[k], f);
    IndexShapes(gs, k);
    assert Covers(Index(gs)[k], path) && Enforceable(Index(gs)[k]);
  }

  /** The audit calls a path enforced exactly when a raw grant enforces it, or a repeated recursive glob covers it. */
  lemma IndexEnforcesIff(gs: seq<ResolvedGrant>, path: string)
    requires WellShaped(gs)
    ensures (Cover(path, Index(gs)).Some? && Enforceable(Cover(path, Index(gs)).value))
       <==> Enforced(gs, path) || RepeatedGlobCovers(gs, path)
  {
    hide Covers, Enforceable, HasGlob, Repeated;
    CoverIsStrongest(path, Index(gs));
    if Cover(path, Index(gs)).Some? {
      CoverIsEnforceableIff(path, Index(gs));
      if Enforceable(Cover(path, Index(gs)).value) {
        var e := Cover(path, Index(gs)).value;
        var k :| 0 <= k < |Index(gs)| && Index(gs)[k] == e;
        EnforcedEntryHasSource(gs, path, k);
      }
    }
    if Enforced(gs, path) || RepeatedGlobCovers(gs, path) {
      var i :| 0 <= i < |gs| && Covers(gs[i], path) && (Enforceable(gs[i]) || (Repeated(gs, gs[i].path) && gs[i].recursive));
      SourceHasEnforcedEntry(gs, path, i);
      var k :| 0 <= k < |Index(gs)| && Covers(Index(gs)[k], path) && Enforceable(Index(gs)[k]);
      assert Index(gs)[k] in Index(gs);
      CoverIsEnforceableIff(path, Index(gs));
    }
  }

  /** A glob path stated twice with recursion is called enforced although no single statement of it is. */
  lemma RepeatedGlobLooksEnforced(access: Access)
    ensures var g := ResolvedGrant("/srv/*", access, true, Pattern);
            && WellShaped([g, g]) && !Enforced([g, g], "/srv/*")
            && Cover("/srv/*", Index([g, g])) == Some(g.(shape := Dir))
  {
    var g := ResolvedGrant("/srv/*", access, true, Pattern);
    assert HasGlob(g.path) by { assert g.path[5] == '*'; }
    assert [g, g][..1] == [g] && [g][..0] == [];
    assert Index([g]) == [g];
    assert access + access == access;
    var d := g.(shape := Dir);
    assert Index([g, g]) == [d];
    assert [d][..0] == [];
    assert Covers(d, "/srv/*");
  }

  // ----- the reverse lookup -----

  datatype Source = Source(id: string, sudo: seq<string>, files: seq<ResolvedGrant>)

  datatype Match = SudoMatch(permission: string, command: string) | FileMatch(permission: string, grant: ResolvedGrant)

  function SkipBlank(s: string): string {
    if s != "" && IsWhitespace(s[0]) then SkipBlank(s[1..]) else s
  }

  function UntilBlank(s: string): string {
    if s == "" || IsWhitespace(s[0]) then "" else [s[0]] + UntilBlank(s[1..])
  }

  /** The first whitespace-delimited token, if there is one. */
  function BinaryToken(command: string): Option<string> {
    var t := UntilBlank(SkipBlank(command));
    if t == "" then None else Some(t)
  }

  function QueryToken(arg: string): string {
    if BinaryToken(arg).Some? then BinaryToken(arg).value else arg
  }

  /** `which_grants`: sudo matches before file matches, source by source. */
  method WhichGrants(arg: string, sources: seq<Source>) returns (out: seq<Match>)
    ensures forall m :: m in out <==> Matches(arg, sources, m)
  {
    hide AtOrUnder, BinaryToken, QueryToken;
    var bin := QueryToken(arg);
    out := [];
    for i := 0 to |sources|
      invariant forall m :: m in out <==> Matches(arg, sources[..i], m)
    {
      var src := sources[i];
      ghost var before := out;
      for j := 0 to |src.sudo|
        invariant forall m :: m in out <==> m in before || SudoHit(arg, src, j, m)
      {
        if BinaryToken(src.sudo[j]) == Some(bin) { out := out + [SudoMatch(src.id, src.sudo[j])]; }
      }
      ghost var withSudo := out;
      for j := 0 to |src.files|
        invariant forall m :: m in out <==> m in withSudo || FileHit(arg, src, j, m)
      {
        if Covers(src.files[j], arg) { out := out + [FileMatch(src.id, src.files[j])]; }
      }
      MatchesGrow(arg, sources, i);
    }
    assert sources[..|sources|] == sources;
  }

  predicate SudoHit(arg: string, src: Source, n: nat, m: Match) {
    m.SudoMatch? && m.permission == src.id && BinaryToken(m.command) == Some(QueryToken(arg))
    && exists j :: 0 <= j < n && j < |src.sudo| && src.sudo[j] == m.command
  }

  predicate FileHit(arg: string, src: Source, n: nat, m: Match) {
    m.FileMatch? && m.permission == src.id && Covers(m.grant, arg)
    && exists j :: 0 <= j < n && j < |src.files| && src.files[j] == m.grant
  }

  predicate Hit(arg: string, src: Source, m: Match) {
    SudoHit(arg, src, |src.sudo|, m) || FileHit(arg, src, |src.files|, m)
  }

  /** The match names a source, and a command or grant of it that reaches the argument. */
  predicate Matches(arg: string, sources: seq<Source>, m: Match) {
    exists i :: 0 <= i < |sources| && Hit(arg, sources[i], m)
  }

  lemma MatchesGrow(arg: string, sources: seq<Source>, i: nat)
    requires i < |sources|
    ensures forall m :: Matches(arg, sources[..i + 1], m) <==> Matches(arg, sources[..i], m) || Hit(arg, sources[i], m)
  {
    hide Hit;
    forall m ensures Matches(arg, sources[..i + 1], m) <==> Matches(arg, sources[..i], m) || Hit(arg, sources[i], m) {
      if Matches(arg, sources[..i + 1], m) {
        var k :| 0 <= k < i + 1 && Hit(arg, sources[..i + 1][k], m);
        if k < i { assert sources[..i][k] == sources[k]; }
      }
      if Matches(arg, sources[..i], m) {
        var k :| 0 <= k < i && Hit(arg, sources[..i][k], m);
        assert sources[..i + 1][k] == sources[k];
      }
      if Hit(arg, sources[i], m) { assert sources[..i + 1][i] == sources[i]; }
    }
  }

  function RawGrants(sources: seq<Source>): seq<ResolvedGrant>
    decreases |sources|
  {
    if sources == [] then [] else RawGrants(sources[..|sources| - 1]) + sources[|sources| - 1].files
  }

  lemma {:induction false} RawGrantHasSource(sources: seq<Source>, g: ResolvedGrant)
    ensures g in RawGrants(sources) <==> exists i :: 0 <= i < |sources| && g in sources[i].files
    decreases |sources|
  {
    if sources != [] {
      var n := |sources| - 1;
      RawGrantHasSource(sources[..n], g);
      assert forall i :: 0 <= i < n ==> sources[..n][i] == sources[i];
    }
  }

  /** The audit finds a grant for a path exactly when the reverse lookup over the same sources reports a file match. */
  lemma ForwardAndReverseAgree(sources: seq<Source>, path: string)
    ensures Cover(path, Index(RawGrants(sources))).Some? <==> exists m: Match :: m.FileMatch? && Matches(path, sources, m)
  {
    hide Covers;
    var raw := RawGrants(sources);
    CoverIsStrongest(path, Index(raw));
    IndexCovers(raw, path);
    if SomeCovers(raw, path) {
      var k :| 0 <= k < |raw| && Covers(raw[k], path);
      RawGrantHasSource(sources, raw[k]);
      var i :| 0 <= i < |sources| && raw[k] in sources[i].files;
      var m := FileMatch(sources[i].id, raw[k]);
      assert FileHit(path, sources[i], |sources[i].files|, m);
      assert Hit(path, sources[i], m);
    }
    if m: Match :| m.FileMatch? && Matches(path, sources, m) {
      var i :| 0 <= i < |sources| && Hit(path, sources[i], m);
      assert m.grant in sources[i].files;
      RawGrantHasSource(sources, m.grant);
      var k :| 0 <= k < |raw| && raw[k] == m.grant;
      assert Covers(raw[k], path);
    }
  }
}
