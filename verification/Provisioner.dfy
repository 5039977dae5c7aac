/**
 The provisioner seam (src/mutate.rs, src/sudoers.rs): shadow-utils over the
 account database, and one sudoers fragment per account or group. Each call may
 fail, and a failed call may leave anything inside its own footprint.
 */
module ProvisionerModel {
  import opened Outcomes
  import opened Records
  import opened DiskModel
  import opened BackupModel
  import opened Plan

  datatype ProvisionError =
    | UidChange(name: string, recorded: nat, requested: nat)
    | MissingManagedRecord(name: string)
    | CommandFailed
    | SudoersFailed
    | BackupFailed(error: BackupError)

  // ----- where things live -----

  const PASSWD := Path("/etc", "passwd")
  const SHADOW := Path("/etc", "shadow")
  const GROUP := Path("/etc", "group")
  const GSHADOW := Path("/etc", "gshadow")

  /** The account database, snapshotted whole by every apply. */
  const AUTH_DB: seq<Path> := [PASSWD, SHADOW, GROUP, GSHADOW]

  const GROUP_DB: set<Path> := {GROUP, GSHADOW}

  function AuthDb(): set<Path> { {PASSWD, SHADOW, GROUP, GSHADOW} }

  function AccountFragment(dir: string, role: string): (p: Path)
    ensures !Scratch(p) && p !in AuthDb()
  {
    Path(dir, "census-" + role)
  }

  function GroupFragment(dir: string, group: string): (p: Path)
    ensures !Scratch(p) && p !in AuthDb()
  {
    Path(dir, "census-grp-" + group)
  }

  /** The candidate a fragment is validated in before it is renamed into place. */
  function FragmentTemp(p: Path): (t: Path)
    ensures Scratch(t) && t.dir == p.dir && t != p
  {
    Path(p.dir, "." + p.name + ".tmp")
  }

  /**
   The `grp-` infix does not keep the two kinds of fragment apart: a role
   account owns the file of group `g` exactly when it is called `grp-` + `g`,
   which is a valid role id.
   */
  lemma FragmentsCollideIff(dir: string, role: string, group: string)
    ensures AccountFragment(dir, role) == GroupFragment(dir, group) <==> role == "grp-" + group
  {
    assert "census-grp-" + group == "census-" + ("grp-" + group);
    assert ("census-" + role)[|"census-"|..] == role;
    assert ("census-" + ("grp-" + group))[|"census-"|..] == "grp-" + group;
  }

  lemma AccountFragmentsDiffer(dir: string, a: string, b: string)
    ensures AccountFragment(dir, a) == AccountFragment(dir, b) <==> a == b
  {
    assert ("census-" + a)[|"census-"|..] == a;
    assert ("census-" + b)[|"census-"|..] == b;
  }

  lemma GroupFragmentsDiffer(dir: string, a: string, b: string)
    ensures GroupFragment(dir, a) == GroupFragment(dir, b) <==> a == b
  {
    assert ("census-grp-" + a)[|"census-grp-"|..] == a;
    assert ("census-grp-" + b)[|"census-grp-"|..] == b;
  }

  // ----- what the files say -----

  /** The accounts on the machine, by login name. */
  function Accounts(f: Tree): map<string, PwEntry> {
    if PASSWD in f && f[PASSWD].Passwd? then f[PASSWD].entries else map[]
  }

  /** The groups on the machine and their members. */
  function Groups(f: Tree): GroupTable {
    if GROUP in f && f[GROUP].GroupFile? then f[GROUP].table else GroupTable(map[], {})
  }

  // ----- what the shadow-utils do to the group table -----

  /** `useradd -G`: the account joins these groups. */
  function Enroll(t: GroupTable, name: string, into: seq<string>): GroupTable {
    t.(members := t.members + (set g | g in into :: Membership(g, name)))
  }

  /** `usermod -G`: the account is in these groups and in no others. */
  function Reenroll(t: GroupTable, name: string, into: seq<string>): GroupTable {
    Enroll(Expel(t, name), name, into)
  }

  /** `userdel`: the account is in no group. */
  function Expel(t: GroupTable, name: string): GroupTable {
    t.(members := set m | m in t.members && m.user != name)
  }

  /** `groupadd`: an empty group. */
  function WithGroup(t: GroupTable, name: string, gid: nat): GroupTable {
    GroupTable(t.gids[name := gid], set m | m in t.members && m.group != name)
  }

  /** `groupdel`: the group is gone, and its members with it. */
  function WithoutGroup(t: GroupTable, name: string): GroupTable {
    GroupTable(t.gids - {name}, set m | m in t.members && m.group != name)
  }

  predicate Known(t: GroupTable, names: seq<string>) {
    forall i :: 0 <= i < |names| ==> names[i] in t.gids
  }

  predicate IsFragment(dir: string, p: Path) {
    p.dir == dir && "census-" <= p.name
  }

  /** Every fragment Census owns under `dir`. */
  function Fragments(f: Tree, dir: string): Tree {
    f - (set p | p in f && !IsFragment(dir, p))
  }

  function Install(f: Tree, p: Path, rule: Option<SudoRule>): Tree {
    if rule.Some? then f[p := Fragment(rule.value)] else f - {p}
  }

  lemma FragmentsFrame(f: Tree, g: Tree, footprint: set<Path>, dir: string)
    requires Within(f, g, footprint)
    requires forall p :: p in footprint ==> !IsFragment(dir, p)
    ensures Fragments(f, dir) == Fragments(g, dir)
  {
    forall p | IsFragment(dir, p) ensures SameAt(f, g, p) { WithinAt(f, g, footprint, p); }
    forall p ensures p in Fragments(f, dir) <==> p in Fragments(g, dir) {
      if IsFragment(dir, p) { assert SameAt(f, g, p); }
    }
    forall p | p in Fragments(f, dir) ensures Fragments(f, dir)[p] == Fragments(g, dir)[p] {
      assert SameAt(f, g, p);
    }
  }

  lemma AccountsFrame(f: Tree, g: Tree, footprint: set<Path>)
    requires Within(f, g, footprint) && PASSWD !in footprint
    ensures Accounts(f) == Accounts(g)
  {
    WithinAt(f, g, footprint, PASSWD);
  }

  lemma GroupsFrame(f: Tree, g: Tree, footprint: set<Path>)
    requires Within(f, g, footprint) && GROUP !in footprint
    ensures Groups(f) == Groups(g)
  {
    WithinAt(f, g, footprint, GROUP);
  }

  // ----- the seam -----

  class Provisioner {
    const disk: Disk
    const backup: Backup
    const managed: seq<ManagedAccount>
    const dir: string

    ghost predicate Valid()
      reads this, backup
    {
      backup.disk == disk && backup.Valid()
    }

    constructor (disk: Disk, backup: Backup, managed: seq<ManagedAccount>, dir: string)
      requires backup.disk == disk && backup.Valid()
      ensures Valid() && this.disk == disk && this.backup == backup && this.managed == managed && this.dir == dir
    {
      this.disk, this.backup, this.managed, this.dir := disk, backup, managed, dir;
    }

    /** Replace the account and the group table and let the other database files follow. */
    method SetTables(accounts: map<string, PwEntry>, groups: GroupTable)
      modifies disk
      ensures Within(old(disk.files), disk.files, AuthDb())
      ensures Accounts(disk.files) == accounts && Groups(disk.files) == groups
    {
      disk.Disturb(AuthDb());
      disk.Become(disk.files[PASSWD := Passwd(accounts)][GROUP := GroupFile(groups)]);
    }

    /** `useradd`, `chfn`, `passwd -l`: refuses a name or a UID already in use, and an unknown group. */
    method Create(acct: ResolvedAccount) returns (r: Result<(), ProvisionError>)
      modifies disk
      ensures Within(old(disk.files), disk.files, AuthDb())
      ensures r.Ok? ==>
        && acct.name !in Accounts(old(disk.files))
        && (forall n :: n in Accounts(old(disk.files)) ==> Accounts(old(disk.files))[n].uid != acct.uid)
        && Accounts(disk.files) == Accounts(old(disk.files))[acct.name := PwEntry(acct.uid, acct.shell)]
        && Known(Groups(old(disk.files)), acct.groups)
        && Groups(disk.files) == Enroll(Groups(old(disk.files)), acct.name, acct.groups)
    {
      var accounts, groups := Accounts(disk.files), Groups(disk.files);
      var fails: bool := *;
      if fails || acct.name in accounts || (exists n :: n in accounts && accounts[n].uid == acct.uid) || !Known(groups, acct.groups) {
        disk.Disturb(AuthDb());
        return Err(CommandFailed);
      }
      SetTables(accounts[acct.name := PwEntry(acct.uid, acct.shell)], Enroll(groups, acct.name, acct.groups));
      return Ok(());
    }

    /** `usermod` for what differs from the record; a UID is never changed. */
    method Update(acct: ResolvedAccount) returns (r: Result<(), ProvisionError>)
      modifies disk
      ensures Within(old(disk.files), disk.files, AuthDb())
      ensures r.Ok? ==>
        && FindAccount(managed, acct.name).Some?
        && var current := FindAccount(managed, acct.name).value;
        && current.uid == acct.uid
        && Accounts(disk.files) ==
           (if current.shell == acct.shell || acct.name !in Accounts(old(disk.files)) then Accounts(old(disk.files))
            else Accounts(old(disk.files))[acct.name := Accounts(old(disk.files))[acct.name].(shell := acct.shell)])
        && (multiset(acct.groups) == multiset(current.groups) ==> Groups(disk.files) == Groups(old(disk.files)))
        && (multiset(acct.groups) != multiset(current.groups) ==>
              && Known(Groups(old(disk.files)), acct.groups)
              && Groups(disk.files) == Reenroll(Groups(old(disk.files)), acct.name, acct.groups))
    {
      var found := FindAccount(managed, acct.name);
      if found.None? {
        return Err(MissingManagedRecord(acct.name));
      }
      var current := found.value;
      if acct.uid != current.uid {
        return Err(UidChange(acct.name, current.uid, acct.uid));
      }
      var accounts, groups := Accounts(disk.files), Groups(disk.files);
      var fails: bool := *;
      var regroup := !SameItems(acct.groups, current.groups);
      var idle := acct.shell == current.shell && !regroup;
      if fails || (!idle && acct.name !in accounts) || (regroup && !Known(groups, acct.groups)) {
        disk.Disturb(AuthDb());
        return Err(CommandFailed);
      }
      if acct.shell != current.shell {
        SetTables(accounts[acct.name := accounts[acct.name].(shell := acct.shell)], groups);
      }
      if regroup {
        SetTables(Accounts(disk.files), Reenroll(groups, acct.name, acct.groups));
      }
      return Ok(());
    }

    /** `userdel -r`. */
    method Delete(name: string) returns (r: Result<(), ProvisionError>)
      modifies disk
      ensures Within(old(disk.files), disk.files, AuthDb())
      ensures r.Ok? ==> Accounts(disk.files) == Accounts(old(disk.files)) - {name}
      ensures r.Ok? ==> Groups(disk.files) == Expel(Groups(old(disk.files)), name)
    {
      var accounts, groups := Accounts(disk.files), Groups(disk.files);
      var fails: bool := *;
      if fails {
        disk.Disturb(AuthDb());
        return Err(CommandFailed);
      }
      SetTables(accounts - {name}, Expel(groups, name));
      return Ok(());
    }

    /** Replace the group table: the two group files only. */
    method SetGroups(groups: GroupTable)
      modifies disk
      ensures Within(old(disk.files), disk.files, GROUP_DB)
      ensures Groups(disk.files) == groups
    {
      disk.Disturb(GROUP_DB);
      disk.Become(disk.files[GROUP := GroupFile(groups)]);
    }

    /** `groupadd`, pinned or with a free GID of the system's choice; refuses a name or a GID in use. */
    method CreateGroup(name: string, gid: Option<nat>) returns (r: Result<(), ProvisionError>)
      modifies disk
      ensures Within(old(disk.files), disk.files, GROUP_DB)
      ensures r.Ok? ==>
        && name !in Groups(old(disk.files)).gids && name in Groups(disk.files).gids
        && var number := Groups(disk.files).gids[name];
           && Groups(disk.files) == WithGroup(Groups(old(disk.files)), name, number)
           && (gid.Some? ==> number == gid.value)
           && (forall n :: n in Groups(old(disk.files)).gids ==> Groups(old(disk.files)).gids[n] != number)
    {
      var groups := Groups(disk.files);
      var chosen: int := *;
      var number := if gid.Some? then gid.value else if chosen >= 0 then chosen else 0;
      var fails: bool := *;
      if fails || name in groups.gids || exists n :: n in groups.gids && groups.gids[n] == number {
        disk.Disturb(GROUP_DB);
        return Err(CommandFailed);
      }
      SetGroups(WithGroup(groups, name, number));
      return Ok(());
    }

    /** `getent group`: the GID on the machine, when it can be read. */
    method GroupGid(name: string) returns (gid: Option<nat>)
      ensures gid.Some? ==> name in Groups(disk.files).gids && Groups(disk.files).gids[name] == gid.value
    {
      var fails: bool := *;
      var gids := Groups(disk.files).gids;
      return if fails || name !in gids then None else Some(gids[name]);
    }

    /** `groupdel`. */
    method DeleteGroup(name: string) returns (r: Result<(), ProvisionError>)
      modifies disk
      ensures Within(old(disk.files), disk.files, GROUP_DB)
      ensures r.Ok? ==> name in Groups(old(disk.files)).gids && Groups(disk.files) == WithoutGroup(Groups(old(disk.files)), name)
    {
      var groups := Groups(disk.files);
      var fails: bool := *;
      if fails || name !in groups.gids {
        disk.Disturb(GROUP_DB);
        return Err(CommandFailed);
      }
      SetGroups(WithoutGroup(groups, name));
      return Ok(());
    }

    /** `gpasswd -a`: one member more, the others stay. */
    method AddGroupMember(group: string, member: string) returns (r: Result<(), ProvisionError>)
      modifies disk
      ensures Within(old(disk.files), disk.files, GROUP_DB)
      ensures r.Ok? ==>
        && group in Groups(old(disk.files)).gids && Groups(disk.files).gids == Groups(old(disk.files)).gids
        && Groups(disk.files).members == Groups(old(disk.files)).members + {Membership(group, member)}
    {
      var groups := Groups(disk.files);
      var fails: bool := *;
      if fails || group !in groups.gids {
        disk.Disturb(GROUP_DB);
        return Err(CommandFailed);
      }
      SetGroups(groups.(members := groups.members + {Membership(group, member)}));
      return Ok(());
    }

    /** `gpasswd -d`: that member less, the others stay. */
    method RemoveGroupMember(group: string, member: string) returns (r: Result<(), ProvisionError>)
      modifies disk
      ensures Within(old(disk.files), disk.files, GROUP_DB)
      ensures r.Ok? ==>
        && group in Groups(old(disk.files)).gids && Groups(disk.files).gids == Groups(old(disk.files)).gids
        && Groups(disk.files).members == Groups(old(disk.files)).members - {Membership(group, member)}
    {
      var groups := Groups(disk.files);
      var fails: bool := *;
      if fails || group !in groups.gids {
        disk.Disturb(GROUP_DB);
        return Err(CommandFailed);
      }
      SetGroups(groups.(members := groups.members - {Membership(group, member)}));
      return Ok(());
    }

    /** Write a validated fragment into place, or remove it when there is no rule. */
    method ApplyRule(p: Path, rule: Option<SudoRule>) returns (r: Result<(), ProvisionError>)
      modifies disk
      ensures Within(old(disk.files), disk.files, {p, FragmentTemp(p)})
      ensures r.Ok? ==> SameAt(Install(old(disk.files), p, rule), disk.files, p)
    {
      if rule.Some? {
        var staged := StageTemp(disk, FragmentTemp(p), Fragment(rule.value));
        WithinGrows(old(disk.files), disk.files, {FragmentTemp(p)}, {p, FragmentTemp(p)});
        var accepted: bool := *;
        if !staged || !accepted {
          var _ := disk.Remove(FragmentTemp(p));
          return Err(SudoersFailed);
        }
        var renamed := disk.Rename(FragmentTemp(p), p);
        return if renamed then Ok(()) else Err(SudoersFailed);
      } else {
        var removal := disk.Remove(p);
        return if removal.Refused? then Err(SudoersFailed) else Ok(());
      }
    }

    method TrackSudoersBackup(path: Path)
      requires Valid()
      modifies backup`targets
      ensures Valid()
      ensures backup.targets == if path in old(backup.targets) then old(backup.targets) else old(backup.targets) + [path]
    {
      backup.AddFile(path);
    }

    method Snapshot(dir: string) returns (r: Result<(), ProvisionError>)
      requires Valid()
      requires forall p :: p in disk.files ==> p.dir != dir
      requires forall i :: 0 <= i < |backup.targets| ==> backup.targets[i].dir != dir
      modifies backup`snapshotDir, backup`saved, disk
      ensures Valid()
      ensures forall p: Path :: p.dir != dir ==> SameAt(old(disk.files), disk.files, p)
      ensures r.Ok? ==> backup.snapshotDir == Some(dir) && backup.saved == SavedPairs(backup.targets, dir)
                        && HoldsCopies(old(disk.files), disk.files, backup.saved)
    {
      var taken := backup.Snapshot(dir);
      return if taken.Ok? then Ok(()) else Err(BackupFailed(taken.error));
    }

    method Restore() returns (r: Result<(), ProvisionError>, stuck: set<Path>)
      requires Valid()
      modifies disk
      ensures Valid()
      ensures r.Ok? && stuck == {} ==> disk.files == RestoreAll(old(disk.files), backup.saved)
      ensures forall p :: p in stuck ==>
                exists i :: 0 <= i < |backup.saved| && backup.saved[i].original == p && backup.saved[i].copy !in old(disk.files)
      ensures forall p :: p in stuck && !Scratch(p) ==> p in disk.files
    {
      var restored;
      restored, stuck := backup.Restore();
      r := if restored.Ok? then Ok(()) else Err(BackupFailed(restored.error));
    }
  }
}
