/**
 Grants whose paths lie inside one another. Every set and every revoke acts on
 a whole subtree, in list order, so what a list grants is not what its entries
 say one by one; the lemmas give the exact conditions.
 */
module Nesting {
  import opened Outcomes
  import opened Records
  import opened Plan
  import opened Paths
  import opened FileAccess
  import opened ApplyPlan
  import opened Transaction
  import opened Effects
  import opened Ledger
  import opened GroupLedger

  /** Two paths with a common descendant lie one inside the other. */
  lemma CommonDescendant(a: string, b: string, path: string)
    requires AtOrUnder(a, path) && AtOrUnder(b, path)
    ensures AtOrUnder(a, b) || AtOrUnder(b, a)
  {
    var p, q := Stem(a), Stem(b);
    assert p <= path && q <= path;
    if |p| < |q| {
      assert q[|p|] == path[|p|];
    } else if |q| < |p| {
      assert p[|q|] == path[|q|];
    } else {
      assert p == q;
    }
  }

  lemma AtItself(path: string)
    ensures AtOrUnder(path, path)
  {
  }

  // ----- one list -----

  /** The last grant at or above a path decides it. */
  predicate Decides(grants: seq<Grant>, j: nat, path: string) {
    j < |grants| && AtOrUnder(grants[j].path, path) && forall k :: j < k < |grants| ==> !AtOrUnder(grants[k].path, path)
  }

  lemma {:induction false} LastReachWins(grants: seq<Grant>, j: nat, path: string)
    requires Decides(grants, j, path)
    ensures GrantedPerm(grants, path) == Some(PermFor(grants[j].access))
  {
    hide AtOrUnder, PermFor;
    var n := |grants| - 1;
    if j < n {
      assert forall k :: 0 <= k < n ==> grants[..n][k] == grants[k];
      LastReachWins(grants[..n], j, path);
    }
  }

  lemma {:induction false} SomeGrantDecides(grants: seq<Grant>, path: string) returns (j: nat)
    requires Reaches(grants, path)
    ensures Decides(grants, j, path)
  {
    hide AtOrUnder;
    var n := |grants| - 1;
    if AtOrUnder(grants[n].path, path) {
      j := n;
    } else {
      assert forall k :: 0 <= k < n ==> grants[..n][k] == grants[k];
      var i :| 0 <= i < |grants| && AtOrUnder(grants[i].path, path);
      assert AtOrUnder(grants[..n][i].path, path);
      j := SomeGrantDecides(grants[..n], path);
    }
  }

  /** A later grant on the same path or above it has the last word, and says something else. */
  ghost predicate Overwritten(grants: seq<Grant>, i: nat)
    requires i < |grants|
  {
    exists j :: i < j && Decides(grants, j, grants[i].path) && PermFor(grants[j].access) != PermFor(grants[i].access)
  }

  /** A grant holds on its own path exactly when nothing written later overwrites it there. */
  lemma GrantHoldsIff(grants: seq<Grant>, i: nat)
    requires i < |grants|
    ensures GrantedPerm(grants, grants[i].path) == Some(PermFor(grants[i].access)) <==> !Overwritten(grants, i)
  {
    hide AtOrUnder, PermFor, GrantedPerm;
    AtItself(grants[i].path);
    assert Reaches(grants, grants[i].path);
    var j := SomeGrantDecides(grants, grants[i].path);
    LastReachWins(grants, j, grants[i].path);
    forall k | Decides(grants, k, grants[i].path) ensures k == j { OneDecides(grants, j, k, grants[i].path); }
  }

  lemma OneDecides(grants: seq<Grant>, j: nat, k: nat, path: string)
    requires Decides(grants, j, path) && Decides(grants, k, path)
    ensures j == k
  {
  }

  /** After a run a target has the access of a grant on its own path, exactly when no later grant overwrites it. */
  lemma TargetGrantHoldsIff(inp: Inputs, dir: string, owned: set<nat>, before: Machine, after: Machine, t: ResolvedAccount, i: nat)
    requires Step(inp, dir, owned, before, after) && t in inp.targets.value
    requires i < |WrittenGrants(inp, t)| && WrittenGrants(inp, t)[i].path in after.acl.tree
    ensures EntryOf(after.acl, AclKey(ByUid(t.uid), WrittenGrants(inp, t)[i].path)) == Some(PermFor(WrittenGrants(inp, t)[i].access))
            <==> !Overwritten(WrittenGrants(inp, t), i)
  {
    hide Step, Overwritten, PermFor, GrantedPerm, WrittenGrants, EntryOf;
    TargetEntries(inp, dir, owned, before, after, t, WrittenGrants(inp, t)[i].path);
    GrantHoldsIff(WrittenGrants(inp, t), i);
  }

  /** And the entry on any existing path lets through exactly the accesses of the grant that decides it. */
  lemma TargetHasTheBits(inp: Inputs, dir: string, owned: set<nat>, before: Machine, after: Machine, t: ResolvedAccount, j: nat, path: string)
    requires Step(inp, dir, owned, before, after) && t in inp.targets.value
    requires path in after.acl.tree && Decides(WrittenGrants(inp, t), j, path)
    ensures var k := AclKey(ByUid(t.uid), path);
            var access := WrittenGrants(inp, t)[j].access;
            && k in after.acl.entries
            && (after.acl.entries[k].r <==> Read in access) && (after.acl.entries[k].w <==> Write in access)
            && (after.acl.entries[k].x == ExecuteFile <==> Execute in access)
            && (after.acl.entries[k].x == SearchDirectory <==> Traverse in access && Execute !in access)
  {
    hide Step, PermFor, GrantedPerm, WrittenGrants, Decides;
    TargetEntries(inp, dir, owned, before, after, t, path);
    LastReachWins(WrittenGrants(inp, t), j, path);
  }

  // ----- the order of a list -----

  /** Grants that lie inside one another ask for the same bits. */
  ghost predicate Agreeing(grants: seq<Grant>) {
    forall g, h :: g in grants && h in grants && AtOrUnder(g.path, h.path) ==> PermFor(g.access) == PermFor(h.access)
  }

  ghost predicate SameReading(a: seq<Grant>, b: seq<Grant>) {
    forall path :: GrantedPerm(a, path) == GrantedPerm(b, path)
  }

  lemma AgreeingReading(a: seq<Grant>, b: seq<Grant>, path: string)
    requires SameItems(a, b) && Agreeing(a)
    ensures GrantedPerm(a, path) == GrantedPerm(b, path)
  {
    hide AtOrUnder, PermFor, GrantedPerm;
    SameItemsReach(a, b, path);
    if Reaches(a, path) {
      var i := SomeGrantDecides(a, path);
      var j := SomeGrantDecides(b, path);
      LastReachWins(a, i, path);
      LastReachWins(b, j, path);
      assert b[j] in multiset(b);
      assert b[j] in multiset(a);
      CommonDescendant(a[i].path, b[j].path, path);
    }
  }

  lemma TakenOut(a: seq<Grant>, i: nat)
    requires i < |a|
    ensures multiset(a[..i] + a[i + 1..]) + multiset{a[i]} == multiset(a)
  {
    assert a == a[..i] + [a[i]] + a[i + 1..];
  }

  lemma AtEnd(rest: seq<Grant>, g: Grant, h: Grant)
    ensures multiset(rest + [g, h]) == multiset(rest) + multiset{g} + multiset{h}
  {
    assert rest + [g, h] == rest + [g] + [h];
  }

  /** The list with two of its grants moved to the end. */
  lemma MoveToEnd(a: seq<Grant>, g: Grant, h: Grant) returns (rest: seq<Grant>)
    requires g in a && h in a && g != h
    ensures SameItems(a, rest + [g, h]) && SameItems(a, rest + [h, g])
  {
    var i :| 0 <= i < |a| && a[i] == g;
    var once := a[..i] + a[i + 1..];
    TakenOut(a, i);
    var j := StillThere(a, once, g, h);
    rest := once[..j] + once[j + 1..];
    TakenOut(once, j);
    AtEnd(rest, g, h);
    AtEnd(rest, h, g);
  }

  lemma StillThere(a: seq<Grant>, once: seq<Grant>, g: Grant, h: Grant) returns (j: nat)
    requires h in a && g != h && multiset(once) + multiset{g} == multiset(a)
    ensures j < |once| && once[j] == h
  {
    assert h in multiset(a);
    assert h in multiset(once);
    assert h in once;
    j :| 0 <= j < |once| && once[j] == h;
  }

  lemma LastTwo(rest: seq<Grant>, g: Grant, h: Grant)
    requires AtOrUnder(g.path, h.path)
    ensures GrantedPerm(rest + [g, h], h.path) == Some(PermFor(h.access))
    ensures GrantedPerm(rest + [h, g], h.path) == Some(PermFor(g.access))
  {
    hide PermFor, GrantedPerm;
    AtItself(h.path);
    LastReachWins(rest + [g, h], |rest| + 1, h.path);
    LastReachWins(rest + [h, g], |rest| + 1, h.path);
  }

  /** The order of a grant list never matters exactly when its nested grants ask for the same bits. */
  lemma OrderNeverMattersIff(a: seq<Grant>)
    ensures Agreeing(a) <==> forall b :: SameItems(a, b) ==> SameReading(a, b)
  {
    hide AtOrUnder, PermFor, GrantedPerm;
    if Agreeing(a) {
      forall b, path | SameItems(a, b) ensures GrantedPerm(a, path) == GrantedPerm(b, path) { AgreeingReading(a, b, path); }
    } else {
      var g, h :| g in a && h in a && AtOrUnder(g.path, h.path) && PermFor(g.access) != PermFor(h.access);
      var rest := MoveToEnd(a, g, h);
      LastTwo(rest, g, h);
      assert !SameReading(a, rest + [g, h]) || !SameReading(a, rest + [h, g]);
    }
  }

  /** A run whose targets all list agreeing grants keeps their meaning, whatever order the registry has. */
  lemma AgreeingKeepsOrder(inp: Inputs, tree: seq<string>)
    requires inp.targets.Some? && forall t :: t in inp.targets.value ==> Agreeing(t.fileGrants)
    ensures OrderKept(inp, tree)
  {
    hide GrantedPerm, Agreeing;
    forall t, path | t in inp.targets.value
      ensures Asked(tree, WrittenGrants(inp, t), path) == Asked(tree, t.fileGrants, path)
    {
      var found := FindAccount(inp.managed, t.name);
      if found.Some? && InSync(t, found.value) { AgreeingReading(t.fileGrants, found.value.fileGrants, path); }
    }
  }

  // ----- granting first and revoking afterwards -----

  /** Each grant's directory exists, written without a doubled final slash. */
  ghost predicate Placed(tree: seq<string>, grants: seq<Grant>) {
    forall g :: g in grants ==> Stem(g.path) in tree && !EndsWithSlash(Stem(g.path))
  }

  ghost predicate Nested(a: seq<Grant>, b: seq<Grant>) {
    exists g, h :: g in a && h in b && (AtOrUnder(g.path, h.path) || AtOrUnder(h.path, g.path))
  }

  lemma OnItsStem(a: string, b: string)
    requires AtOrUnder(a, b) && !EndsWithSlash(Stem(a))
    ensures AtOrUnder(a, Stem(b)) && AtOrUnder(b, Stem(b))
  {
  }

  lemma ReachedBy(grants: seq<Grant>, g: Grant, path: string)
    requires g in grants && AtOrUnder(g.path, path)
    ensures Reaches(grants, path)
  {
  }

  /** A kept grant is severed exactly when some kept and some revoked path lie one inside the other. */
  lemma SeveredIff(tree: seq<string>, keep: seq<Grant>, removed: seq<Grant>)
    requires Placed(tree, keep) && Placed(tree, removed)
    ensures Severed(tree, keep, removed) <==> Nested(keep, removed)
  {
    hide AtOrUnder, Stem, GrantedPerm;
    if Severed(tree, keep, removed) {
      var path :| Asked(tree, keep, path).Some? && Reaches(removed, path);
      var i :| 0 <= i < |keep| && AtOrUnder(keep[i].path, path);
      var j :| 0 <= j < |removed| && AtOrUnder(removed[j].path, path);
      CommonDescendant(keep[i].path, removed[j].path, path);
      assert keep[i] in keep && removed[j] in removed;
    }
    if Nested(keep, removed) {
      var g, h :| g in keep && h in removed && (AtOrUnder(g.path, h.path) || AtOrUnder(h.path, g.path));
      var path := if AtOrUnder(g.path, h.path) then Stem(h.path) else Stem(g.path);
      if AtOrUnder(g.path, h.path) { OnItsStem(g.path, h.path); } else { OnItsStem(h.path, g.path); }
      ReachedBy(keep, g, path);
      ReachedBy(removed, h, path);
      assert Asked(tree, keep, path).Some?;
    }
  }
}
