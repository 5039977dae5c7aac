/** The by-path union of file grants and the by-value union of primitives (src/catalog.rs). */
module Grants {
  import opened Outcomes
  import opened Records
  import opened CatalogTypes

  // ----- file grants -----

  /** What a list of file grants says, entry by entry. */
  datatype GrantFact = OnPath(path: string) | Bit(path: string, perm: Perm) | Deep(path: string)

  predicate Says(g: ResolvedGrant, f: GrantFact) {
    && g.path == f.path
    && match f
       case OnPath(_) => true
       case Bit(_, b) => b in g.access
       case Deep(_) => g.recursive
  }

  predicate Holds(gs: seq<ResolvedGrant>, f: GrantFact) {
    exists i :: 0 <= i < |gs| && Says(gs[i], f)
  }

  predicate UniquePaths(gs: seq<ResolvedGrant>) {
    forall i, j :: 0 <= i < j < |gs| ==> gs[i].path != gs[j].path
  }

  predicate WellShaped(gs: seq<ResolvedGrant>) {
    forall i :: 0 <= i < |gs| ==> gs[i].shape == ShapeOf(gs[i].path, gs[i].recursive)
  }

  function Resolve(g: Grant): ResolvedGrant { ResolvedGrant(g.path, g.access, g.recursive, g.Shape()) }

  function IndexOfPath(gs: seq<ResolvedGrant>, path: string): (k: nat)
    ensures k <= |gs|
    ensures k < |gs| ==> gs[k].path == path
    ensures forall j :: 0 <= j < k ==> gs[j].path != path
  {
    if gs == [] || gs[0].path == path then 0 else 1 + IndexOfPath(gs[1..], path)
  }

  function Widened(e: ResolvedGrant, g: ResolvedGrant): ResolvedGrant {
    ResolvedGrant(e.path, e.access + g.access, e.recursive || g.recursive, ShapeOf(e.path, e.recursive || g.recursive))
  }

  /** A known path is widened, a new one is appended. */
  function Merge(acc: seq<ResolvedGrant>, g: ResolvedGrant): seq<ResolvedGrant> {
    var k := IndexOfPath(acc, g.path);
    if k < |acc| then acc[k := Widened(acc[k], g)] else acc + [g]
  }

  function Union(acc: seq<ResolvedGrant>, gs: seq<ResolvedGrant>): seq<ResolvedGrant>
    decreases |gs|
  {
    if gs == [] then acc else Merge(Union(acc, gs[..|gs| - 1]), gs[|gs| - 1])
  }

  method UnionInto(acc: seq<ResolvedGrant>, gs: seq<ResolvedGrant>) returns (out: seq<ResolvedGrant>)
    ensures out == Union(acc, gs)
  {
    out := acc;
    for i := 0 to |gs|
      invariant out == Union(acc, gs[..i])
    {
      assert gs[..i + 1][..i] == gs[..i];
      var k := IndexOfPath(out, gs[i].path);
      if k < |out| {
        out := out[k := Widened(out[k], gs[i])];
      } else {
        out := out + [gs[i]];
      }
    }
    assert gs[..|gs|] == gs;
  }

  lemma MergeSays(acc: seq<ResolvedGrant>, g: ResolvedGrant, f: GrantFact)
    ensures Holds(Merge(acc, g), f) <==> Holds(acc, f) || Says(g, f)
  {
    var k, out := IndexOfPath(acc, g.path), Merge(acc, g);
    if Holds(acc, f) {
      var i :| 0 <= i < |acc| && Says(acc[i], f);
      assert Says(out[i], f);
    }
    if Says(g, f) {
      assert Says(out[k], f);
    }
  }

  /** The union says exactly what its two sides say. */
  lemma {:induction false} UnionSays(acc: seq<ResolvedGrant>, gs: seq<ResolvedGrant>, f: GrantFact)
    ensures Holds(Union(acc, gs), f) <==> Holds(acc, f) || Holds(gs, f)
    decreases |gs|
  {
    if gs != [] {
      var n := |gs| - 1;
      UnionSays(acc, gs[..n], f);
      MergeSays(Union(acc, gs[..n]), gs[n], f);
      if Holds(gs[..n], f) {
        var i :| 0 <= i < n && Says(gs[..n][i], f);
        assert Says(gs[i], f);
      }
      if Holds(gs, f) {
        var i :| 0 <= i < |gs| && Says(gs[i], f);
        if i < n { assert Says(gs[..n][i], f); }
      }
    }
  }

  /** It keeps one entry per path, each with the shape its path and flag imply. */
  lemma {:induction false} UnionKeeps(acc: seq<ResolvedGrant>, gs: seq<ResolvedGrant>)
    ensures UniquePaths(acc) ==> UniquePaths(Union(acc, gs))
    ensures WellShaped(acc) && WellShaped(gs) ==> WellShaped(Union(acc, gs))
    decreases |gs|
  {
    if gs != [] { UnionKeeps(acc, gs[..|gs| - 1]); }
  }

  /** With one entry per path, an entry is determined by what the list says. */
  lemma EntryIsUnion(gs: seq<ResolvedGrant>, i: nat)
    requires UniquePaths(gs) && WellShaped(gs) && i < |gs|
    ensures forall b :: b in gs[i].access <==> Holds(gs, Bit(gs[i].path, b))
    ensures gs[i].recursive <==> Holds(gs, Deep(gs[i].path))
    ensures gs[i].shape == ShapeOf(gs[i].path, Holds(gs, Deep(gs[i].path)))
  {
    forall b | b in gs[i].access
      ensures Holds(gs, Bit(gs[i].path, b))
    {
      assert Says(gs[i], Bit(gs[i].path, b));
    }
    if gs[i].recursive { assert Says(gs[i], Deep(gs[i].path)); }
  }

  // ----- groups and sudo commands -----

  /** Append the members not yet present, in order. */
  function AddNew<T(==,!new)>(acc: seq<T>, xs: seq<T>): (r: seq<T>)
    ensures forall x :: x in r <==> x in acc || x in xs
    decreases |xs|
  {
    if xs == [] then acc else
    var r := AddNew(acc, xs[..|xs| - 1]);
    assert xs == xs[..|xs| - 1] + [xs[|xs| - 1]];
    if xs[|xs| - 1] in r then r else r + [xs[|xs| - 1]]
  }

  /** What was there stays in front, and whatever is added is new, once. */
  lemma {:induction false} AddNewIsNew<T(!new)>(acc: seq<T>, xs: seq<T>)
    ensures acc <= AddNew(acc, xs)
    ensures forall i, j :: 0 <= i < j < |AddNew(acc, xs)| && |acc| <= j ==> AddNew(acc, xs)[i] != AddNew(acc, xs)[j]
    decreases |xs|
  {
    if xs != [] { AddNewIsNew(acc, xs[..|xs| - 1]); }
  }

  lemma AddedIsListed<T(!new)>(acc: seq<T>, xs: seq<T>, i: nat)
    requires |acc| <= i < |AddNew(acc, xs)|
    ensures AddNew(acc, xs)[i] in xs
  {
    AddNewIsNew(acc, xs);
    assert forall j :: 0 <= j < |acc| ==> acc[j] == AddNew(acc, xs)[j];
  }

  /** And it stands in the order of its first mention. */
  lemma {:induction false} AddNewKeepsOrder<T(!new)>(acc: seq<T>, xs: seq<T>, i: nat, j: nat)
    requires |acc| <= i < j < |AddNew(acc, xs)|
    ensures exists k :: 0 <= k < |xs| && xs[k] == AddNew(acc, xs)[i] && AddNew(acc, xs)[j] !in xs[..k]
    decreases |xs|
  {
    var n := |xs| - 1;
    var init, r := xs[..n], AddNew(acc, xs[..n]);
    if j < |r| {
      AddNewKeepsOrder(acc, init, i, j);
      var k :| 0 <= k < n && init[k] == r[i] && r[j] !in init[..k];
      assert xs[k] == r[i] && xs[..k] == init[..k];
    } else {
      AddedIsListed(acc, init, i);
      var k :| 0 <= k < n && init[k] == r[i];
      assert xs[k] == r[i] && xs[..k] == init[..k];
      assert xs[n] !in init;
      assert forall x :: x in init[..k] ==> x in init;
    }
  }

  method AddNewInto<T(==,!new)>(acc: seq<T>, xs: seq<T>) returns (out: seq<T>)
    ensures out == AddNew(acc, xs)
  {
    out := acc;
    for i := 0 to |xs|
      invariant out == AddNew(acc, xs[..i])
    {
      assert xs[..i + 1][..i] == xs[..i];
      if xs[i] !in out { out := out + [xs[i]]; }
    }
    assert xs[..|xs|] == xs;
  }
}
