/**
 The file system as Census uses it: whole files addressed by directory and
 name. Every primitive may fail; the disk remembers each state it passes
 through, so that a crash between two primitives can be talked about.
 */
module DiskModel {
  import opened Outcomes
  import opened Records

  datatype Path = Path(dir: string, name: string)

  datatype PwEntry = PwEntry(uid: nat, shell: string)

  datatype Membership = Membership(group: string, user: string)

  /** The groups by name, and who is in them. */
  datatype GroupTable = GroupTable(gids: map<string, nat>, members: set<Membership>)

  /** File contents: the account table, the group table, a sudoers fragment, or anything else. */
  datatype Blob =
    | Passwd(entries: map<string, PwEntry>)
    | GroupFile(table: GroupTable)
    | Fragment(rule: SudoRule)
    | Bytes(text: string)

  type Tree = map<Path, Blob>

  /** Same presence and same contents at one path. */
  predicate SameAt(f: Tree, g: Tree, p: Path) {
    (p in f <==> p in g) && (p in f ==> f[p] == g[p])
  }

  /** Nothing outside the footprint has changed. */
  ghost predicate Within(f: Tree, g: Tree, footprint: set<Path>) {
    f - footprint == g - footprint
  }

  lemma WithinAt(f: Tree, g: Tree, footprint: set<Path>, p: Path)
    requires Within(f, g, footprint) && p !in footprint
    ensures SameAt(f, g, p)
  {
    assert p in f <==> p in f - footprint;
    assert p in g <==> p in g - footprint;
    assert p in f ==> f[p] == (f - footprint)[p] && g[p] == (g - footprint)[p];
  }

  lemma WithinGrows(f: Tree, g: Tree, small: set<Path>, large: set<Path>)
    requires Within(f, g, small) && small <= large
    ensures Within(f, g, large)
  {
    forall p | p !in large ensures SameAt(f, g, p) { WithinAt(f, g, small, p); }
    assert forall p :: p in f - large <==> p in g - large by {
      forall p ensures p in f - large <==> p in g - large { if p !in large { assert SameAt(f, g, p); } }
    }
    forall p | p in f - large ensures (f - large)[p] == (g - large)[p] { assert SameAt(f, g, p); }
  }

  /** A temporary file: Census names all of its own with a leading dot. */
  predicate Scratch(p: Path) {
    p.name != "" && p.name[0] == '.'
  }

  datatype Removal = Removed | NotFound | Refused

  datatype Opening = Opened | AlreadyExists | OpenFailed

  class Disk {
    var files: Tree
    ghost var trace: seq<Tree>

    constructor ()
      ensures files == map[] && trace == []
    {
      files, trace := map[], [];
    }

    /** Install the next state; the only place the contents ever change. */
    method Become(next: Tree)
      modifies this
      ensures files == next && trace == old(trace) + [next]
    {
      files := next;
      trace := trace + [next];
    }

    /** Anything at all may happen inside the footprint. */
    method Disturb(footprint: set<Path>)
      modifies this
      ensures Within(old(files), files, footprint)
      ensures trace == old(trace) + [files]
    {
      var noise: Tree := *;
      Become((files - footprint) + (noise - (set p | p in noise && p !in footprint)));
    }

    /** `std::fs::copy`: on failure the destination may be partly written. */
    method Copy(from: Path, to: Path) returns (ok: bool)
      requires from in files
      modifies this
      ensures ok ==> files == old(files)[to := old(files)[from]]
      ensures Within(old(files), files, {to})
    {
      ok := *;
      if ok {
        Become(files[to := files[from]]);
      } else {
        Disturb({to});
      }
    }

    method Remove(p: Path) returns (r: Removal)
      modifies this
      ensures r.NotFound? <==> p !in old(files)
      ensures r.Removed? ==> files == old(files) - {p}
      ensures !r.Removed? ==> files == old(files)
      ensures trace == old(trace) + [files]
    {
      var refused: bool := *;
      if p !in files {
        r := NotFound;
        Become(files);
      } else if refused {
        r := Refused;
        Become(files);
      } else {
        r := Removed;
        Become(files - {p});
      }
    }

    /** Exclusive creation (`create_new`): an existing path is never followed. */
    method CreateNew(p: Path) returns (r: Opening)
      modifies this
      ensures r.Opened? ==> p !in old(files) && files == old(files)[p := Bytes("")]
      ensures r.AlreadyExists? <==> p in old(files)
      ensures !r.Opened? ==> files == old(files)
      ensures trace == old(trace) + [files]
    {
      var fails: bool := *;
      if p in files {
        r := AlreadyExists;
        Become(files);
      } else if fails {
        r := OpenFailed;
        Become(files);
      } else {
        r := Opened;
        Become(files[p := Bytes("")]);
      }
    }

    method WriteAll(p: Path, contents: Blob) returns (ok: bool)
      modifies this
      ensures ok ==> files == old(files)[p := contents]
      ensures Within(old(files), files, {p})
      ensures trace == old(trace) + [files]
    {
      ok := *;
      if ok {
        Become(files[p := contents]);
      } else {
        Disturb({p});
      }
    }

    method Rename(from: Path, to: Path) returns (ok: bool)
      requires from in files
      modifies this
      ensures ok ==> files == (old(files) - {from})[to := old(files)[from]]
      ensures !ok ==> files == old(files)
      ensures trace == old(trace) + [files]
    {
      ok := *;
      if ok {
        Become((files - {from})[to := files[from]]);
      } else {
        Become(files);
      }
    }
  }
}
