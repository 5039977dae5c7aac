/**
 The file-access seam (src/fileaccess.rs): POSIX ACL entries. The kernel keys a
 user entry by UID, so a name must resolve through the account table when the
 entry is written; a deleted account's entry is removed by its UID.

 Every command recurses: setting or revoking a grant rewrites the holder's
 entries on the path and on everything below it, so the order of nested grants
 matters. `tree` lists the paths that exist.
 */
module FileAccess {
  import opened Outcomes
  import opened Records
  import opened DiskModel
  import opened ProvisionerModel
  import opened Paths

  datatype Principal = User(name: string) | Group(group: string) | Uid(uid: nat)

  /** Who an entry is for, as the kernel stores it. */
  datatype Holder = ByUid(uid: nat) | ByGroup(group: string)

  datatype AclKey = AclKey(holder: Holder, path: string)

  datatype ExecuteSlot = ExecuteFile | SearchDirectory | NoExecute

  datatype AclPerm = AclPerm(r: bool, w: bool, x: ExecuteSlot)

  datatype Acl = Acl(tree: seq<string>, entries: map<AclKey, AclPerm>)

  datatype FileAccessError =
    | Unsupported(path: string, shape: Shape)
    | Setfacl(path: string)
    | Unresolvable(path: string)

  datatype Capabilities = Capabilities(dir: bool, perPath: bool, pattern: bool)

  const ACL_CAPABILITIES := Capabilities(true, false, false)

  /** The entry lets exactly these accesses through; search is for directories alone. */
  predicate Grants(p: AclPerm, access: Access) {
    && (p.r <==> Read in access) && (p.w <==> Write in access)
    && (p.x == ExecuteFile <==> Execute in access)
    && (p.x == SearchDirectory <==> Traverse in access && Execute !in access)
  }

  /** The `rwx` slot an access set asks for; execute wins over traverse. */
  function PermFor(access: Access): (p: AclPerm)
    ensures Grants(p, access)
  {
    AclPerm(Read in access, Write in access,
            if Execute in access then ExecuteFile else if Traverse in access then SearchDirectory else NoExecute)
  }

  function HolderOf(p: Principal, accounts: map<string, PwEntry>): Option<Holder> {
    match p
    case User(n) => if n in accounts then Some(ByUid(accounts[n].uid)) else None
    case Group(g) => Some(ByGroup(g))
    case Uid(u) => Some(ByUid(u))
  }

  predicate ShapeSupported(shape: Shape, caps: Capabilities) {
    match shape
    case Dir => caps.dir
    case File => caps.perPath
    case Pattern => caps.pattern
  }

  /** Capability gating: every grant has a backend, or none is applied. */
  predicate Routable(grants: seq<Grant>, caps: Capabilities) {
    forall i :: 0 <= i < |grants| ==> ShapeSupported(grants[i].Shape(), caps)
  }

  /** The entries of a holder on the listed paths that lie at or under the granted one. */
  function SetPaths(entries: map<AclKey, AclPerm>, who: Holder, g: Grant, tree: seq<string>): map<AclKey, AclPerm> {
    if tree == [] then entries
    else
      var path := tree[|tree| - 1];
      var rest := SetPaths(entries, who, g, tree[..|tree| - 1]);
      if AtOrUnder(g.path, path) then rest[AclKey(who, path) := PermFor(g.access)] else rest
  }

  /** `setfacl -R -m`: the holder's entry on every path at or under the granted one. */
  function SetOne(acl: Acl, who: Holder, g: Grant): Acl {
    acl.(entries := SetPaths(acl.entries, who, g, acl.tree))
  }

  lemma {:induction false} SetPathsAt(entries: map<AclKey, AclPerm>, who: Holder, g: Grant, tree: seq<string>, k: AclKey)
    ensures var r := SetPaths(entries, who, g, tree);
            if k.holder == who && k.path in tree && AtOrUnder(g.path, k.path) then k in r && r[k] == PermFor(g.access)
            else (k in r <==> k in entries) && (k in r ==> r[k] == entries[k])
  {
    hide AtOrUnder, PermFor;
    if tree != [] {
      var n := |tree| - 1;
      SetPathsAt(entries, who, g, tree[..n], k);
      assert tree == tree[..n] + [tree[n]];
    }
  }

  /** `setfacl -R -x`: no entry of the holder at or under the path. */
  function DropOne(acl: Acl, who: Holder, path: string): Acl {
    acl.(entries := acl.entries - (set k | k in acl.entries && k.holder == who && AtOrUnder(path, k.path)))
  }

  function SetGrants(acl: Acl, who: Holder, grants: seq<Grant>): (r: Acl)
    ensures r.tree == acl.tree
  {
    if grants == [] then acl
    else SetOne(SetGrants(acl, who, grants[..|grants| - 1]), who, grants[|grants| - 1])
  }

  function DropGrants(acl: Acl, who: Holder, grants: seq<Grant>): (r: Acl)
    ensures r.tree == acl.tree
  {
    if grants == [] then acl
    else DropOne(DropGrants(acl, who, grants[..|grants| - 1]), who, grants[|grants| - 1].path)
  }

  /** At or under one of the paths. */
  predicate Inside(paths: set<string>, path: string) {
    exists p :: p in paths && AtOrUnder(p, path)
  }

  /** Entries outside the subtrees of `paths` are the same. */
  ghost predicate AclWithin(a: Acl, b: Acl, paths: set<string>) {
    Elsewhere(a, paths) == Elsewhere(b, paths)
  }

  function Elsewhere(a: Acl, paths: set<string>): Acl {
    a.(entries := a.entries - (set k | k in a.entries && Inside(paths, k.path)))
  }

  /** The entries `getfacl -R` dumps for these paths. */
  function Dump(a: Acl, paths: set<string>): map<AclKey, AclPerm> {
    a.entries - (set k | k in a.entries && !Inside(paths, k.path))
  }

  function PathsOf(grants: seq<Grant>): set<string> {
    set g | g in grants :: g.path
  }

  lemma AclWithinGrows(a: Acl, b: Acl, small: set<string>, large: set<string>)
    requires AclWithin(a, b, small) && small <= large
    ensures AclWithin(a, b, large)
  {
    hide AtOrUnder;
    assert a.tree == Elsewhere(a, small).tree == Elsewhere(b, small).tree == b.tree;
    forall k: AclKey | !Inside(large, k.path)
      ensures (k in a.entries <==> k in b.entries) && (k in a.entries ==> a.entries[k] == b.entries[k])
    {
      assert !Inside(small, k.path);
      assert k in Elsewhere(a, small).entries <==> k in a.entries;
      assert k in Elsewhere(b, small).entries <==> k in b.entries;
    }
    assert Elsewhere(a, large).entries == Elsewhere(b, large).entries;
  }

  lemma SetStaysWithin(acl: Acl, who: Holder, g: Grant)
    ensures AclWithin(acl, SetOne(acl, who, g), {g.path})
  {
    hide AtOrUnder;
    assert forall k: AclKey :: !Inside({g.path}, k.path) ==> !AtOrUnder(g.path, k.path) by {
      forall k: AclKey | AtOrUnder(g.path, k.path) ensures Inside({g.path}, k.path) { assert g.path in {g.path}; }
    }
    forall k: AclKey | !Inside({g.path}, k.path)
      ensures (k in acl.entries <==> k in SetOne(acl, who, g).entries) && (k in acl.entries ==> acl.entries[k] == SetOne(acl, who, g).entries[k])
    {
      SetPathsAt(acl.entries, who, g, acl.tree, k);
    }
    assert Elsewhere(acl, {g.path}).entries == Elsewhere(SetOne(acl, who, g), {g.path}).entries;
  }

  lemma DropStaysWithin(acl: Acl, who: Holder, path: string)
    ensures AclWithin(acl, DropOne(acl, who, path), {path})
  {
    hide AtOrUnder;
    assert forall k: AclKey :: !Inside({path}, k.path) ==> !AtOrUnder(path, k.path) by {
      forall k: AclKey | AtOrUnder(path, k.path) ensures Inside({path}, k.path) { assert path in {path}; }
    }
    assert Elsewhere(acl, {path}).entries == Elsewhere(DropOne(acl, who, path), {path}).entries;
  }

  datatype AclSnapshot = AclSnapshot(paths: set<string>, entries: map<AclKey, AclPerm>)

  class AclBackend {
    const disk: Disk
    var acl: Acl
    var lastSnapshot: Option<AclSnapshot>

    constructor (disk: Disk, acl: Acl)
      ensures this.disk == disk && this.acl == acl && lastSnapshot == None
    {
      this.disk, this.acl, lastSnapshot := disk, acl, None;
    }

    /** Any entry in the subtrees of these paths may change. */
    method Disturb(paths: set<string>)
      modifies this`acl
      ensures AclWithin(old(acl), acl, paths)
    {
      hide AtOrUnder;
      var noise: map<AclKey, AclPerm> := *;
      acl := acl.(entries := Elsewhere(acl, paths).entries + (noise - (set k | k in noise && !Inside(paths, k.path))));
      assert Elsewhere(acl, paths).entries == Elsewhere(old(acl), paths).entries;
    }

    method Materialize(principal: Principal, grants: seq<Grant>) returns (r: Result<(), FileAccessError>)
      modifies this`acl
      ensures AclWithin(old(acl), acl, PathsOf(grants))
      ensures r.Ok? && grants != [] ==>
        && HolderOf(principal, Accounts(disk.files)).Some?
        && acl == SetGrants(old(acl), HolderOf(principal, Accounts(disk.files)).value, grants)
      ensures r.Ok? && grants == [] ==> acl == old(acl)
    {
      var holder := HolderOf(principal, Accounts(disk.files));
      for i := 0 to |grants|
        invariant AclWithin(old(acl), acl, PathsOf(grants))
        invariant i > 0 ==> holder.Some?
        invariant i == 0 ==> acl == old(acl)
        invariant holder.Some? ==> acl == SetGrants(old(acl), holder.value, grants[..i])
      {
        assert grants[..i + 1][..i] == grants[..i];
        var g := grants[i];
        assert g.path in PathsOf(grants);
        if g.Shape() != Dir {
          return Err(Unsupported(g.path, g.Shape()));
        }
        var resolves: bool := *;
        if !resolves {
          return Err(Unresolvable(g.path));
        }
        var ok: bool := *;
        if !ok || holder.None? {
          ghost var before := acl;
          Disturb({g.path});
          AclWithinGrows(before, acl, {g.path}, PathsOf(grants));
          return Err(Setfacl(g.path));
        }
        SetStaysWithin(acl, holder.value, g);
        AclWithinGrows(acl, SetOne(acl, holder.value, g), {g.path}, PathsOf(grants));
        acl := SetOne(acl, holder.value, g);
      }
      assert grants[..|grants|] == grants;
      return Ok(());
    }

    method Revoke(principal: Principal, grant: Grant) returns (r: Result<(), FileAccessError>)
      modifies this`acl
      ensures AclWithin(old(acl), acl, {grant.path})
      ensures r.Ok? ==>
        && HolderOf(principal, Accounts(disk.files)).Some?
        && acl == DropOne(old(acl), HolderOf(principal, Accounts(disk.files)).value, grant.path)
    {
      var holder := HolderOf(principal, Accounts(disk.files));
      var ok: bool := *;
      if !ok || holder.None? {
        Disturb({grant.path});
        return Err(Setfacl(grant.path));
      }
      DropStaysWithin(acl, holder.value, grant.path);
      acl := DropOne(acl, holder.value, grant.path);
      return Ok(());
    }

    method Snapshot(paths: set<string>) returns (r: Result<(), FileAccessError>)
      modifies this`lastSnapshot
      ensures r.Ok? ==> lastSnapshot == Some(AclSnapshot(paths, Dump(acl, paths)))
      ensures r.Err? ==> lastSnapshot == old(lastSnapshot)
    {
      var fails: bool := *;
      if fails {
        return Err(Setfacl(""));
      }
      lastSnapshot := Some(AclSnapshot(paths, Dump(acl, paths)));
      return Ok(());
    }

    /** Replay the dump; with no snapshot there is nothing to undo. */
    method Restore() returns (r: Result<(), FileAccessError>)
      modifies this`acl
      ensures lastSnapshot.None? ==> r.Ok? && acl == old(acl)
      ensures lastSnapshot.Some? && r.Err? ==> AclWithin(old(acl), acl, lastSnapshot.value.paths)
      ensures lastSnapshot.Some? && r.Ok? ==>
        acl == old(acl).(entries := Elsewhere(old(acl), lastSnapshot.value.paths).entries + lastSnapshot.value.entries)
    {
      if lastSnapshot.None? {
        return Ok(());
      }
      var fails: bool := *;
      if fails {
        Disturb(lastSnapshot.value.paths);
        return Err(Setfacl(""));
      }
      var s := lastSnapshot.value;
      acl := acl.(entries := Elsewhere(acl, s.paths).entries + s.entries);
      return Ok(());
    }
  }

  /** Restoring the snapshot of `paths` undoes any change in their subtrees. */
  lemma AclRestoreUndoes(before: Acl, now: Acl, paths: set<string>)
    requires AclWithin(before, now, paths)
    ensures now.(entries := Elsewhere(now, paths).entries + Dump(before, paths)) == before
  {
    hide AtOrUnder;
    assert before.tree == Elsewhere(before, paths).tree == Elsewhere(now, paths).tree == now.tree;
    var restored := Elsewhere(now, paths).entries + Dump(before, paths);
    forall k ensures (k in restored <==> k in before.entries) && (k in before.entries ==> restored[k] == before.entries[k]) {
      if !Inside(paths, k.path) {
        assert k in Elsewhere(before, paths).entries <==> k in before.entries;
        assert k in Elsewhere(now, paths).entries <==> k in restored;
      }
    }
    assert restored == before.entries;
  }
}
