/**
 Full-file snapshot and restore (src/backup.rs). `Backup` copies every target
 into a fresh directory and later puts each one back by writing a temporary
 sibling and renaming it over the destination.

 `RestoreAll` is what a restore computes; the lemmas say exactly when that is
 the inverse of the mutation in between.
 */
module BackupModel {
  import opened Outcomes
  import opened Records
  import opened DiskModel

  datatype BackupError = Mkdir | CopyFailed(from: Path, to: Path) | NoSnapshot

  datatype Saved = Saved(original: Path, copy: Path)

  // ----- names -----

  /** The sibling a restore writes before renaming it over `dest`. */
  function TempOf(dest: Path): (t: Path)
    ensures t != dest && t.dir == dest.dir && Scratch(t)
  {
    Path(dest.dir, ".census-restore-" + dest.name)
  }

  function Digit(d: nat): char
    requires d < 10
  {
    '0' + d as char
  }

  function Decimal(n: nat): string {
    if n < 10 then [Digit(n)] else Decimal(n / 10) + [Digit(n % 10)]
  }

  /** `{i:03}`: decimal, zero-padded to three digits. */
  function Pad3(i: nat): string {
    if i < 10 then "00" + Decimal(i) else if i < 100 then "0" + Decimal(i) else Decimal(i)
  }

  predicate IsAlphanumeric(c: char) {
    'a' <= c <= 'z' || 'A' <= c <= 'Z' || '0' <= c <= '9'
  }

  function Sanitize(text: string): string {
    seq(|text|, i requires 0 <= i < |text| => if IsAlphanumeric(text[i]) then text[i] else '_')
  }

  function CopyName(i: nat, original: Path): string {
    Pad3(i) + "-" + Sanitize(original.dir + "/" + original.name)
  }

  /** Reading the digits back. */
  function ReadDecimal(s: string): nat
    requires forall k :: 0 <= k < |s| ==> '0' <= s[k] <= '9'
  {
    if s == [] then 0
    else ReadDecimal(s[..|s| - 1]) * 10 + (s[|s| - 1] - '0') as nat
  }

  lemma {:induction false} DecimalReadsBack(n: nat)
    ensures forall k :: 0 <= k < |Decimal(n)| ==> '0' <= Decimal(n)[k] <= '9'
    ensures ReadDecimal(Decimal(n)) == n
  {
    if n < 10 {
      assert Decimal(n)[..|Decimal(n)| - 1] == [];
    } else {
      DecimalReadsBack(n / 10);
      assert Decimal(n)[..|Decimal(n)| - 1] == Decimal(n / 10);
    }
  }

  lemma {:induction false} LeadingZero(s: string)
    requires forall k :: 0 <= k < |s| ==> '0' <= s[k] <= '9'
    ensures forall k :: 0 <= k < |"0" + s| ==> '0' <= ("0" + s)[k] <= '9'
    ensures ReadDecimal("0" + s) == ReadDecimal(s)
  {
    if s == [] {
      assert ("0" + s)[..|"0" + s| - 1] == [];
    } else {
      LeadingZero(s[..|s| - 1]);
      assert ("0" + s)[..|"0" + s| - 1] == "0" + s[..|s| - 1];
    }
  }

  lemma Pad3ReadsBack(i: nat)
    ensures forall k :: 0 <= k < |Pad3(i)| ==> '0' <= Pad3(i)[k] <= '9'
    ensures ReadDecimal(Pad3(i)) == i
  {
    hide Digit, ReadDecimal;
    DecimalReadsBack(i);
    LeadingZero(Decimal(i));
    LeadingZero("0" + Decimal(i));
    assert "00" + Decimal(i) == "0" + ("0" + Decimal(i));
  }

  /** At least three digits, with no more zeros in front than that takes. */
  lemma Pad3Width(i: nat)
    ensures |Pad3(i)| >= 3 && (i < 1000 ==> |Pad3(i)| == 3) && (i >= 100 ==> Pad3(i)[0] != '0')
  {
    DecimalWidth(i);
  }

  lemma {:induction false} DecimalWidth(n: nat)
    ensures |Decimal(n)| >= 1 && (n > 0 ==> Decimal(n)[0] != '0')
    ensures n < 10 ==> |Decimal(n)| == 1
    ensures 10 <= n < 100 ==> |Decimal(n)| == 2
    ensures 100 <= n < 1000 ==> |Decimal(n)| == 3
    ensures n >= 1000 ==> |Decimal(n)| >= 4
  {
    if n >= 10 { DecimalWidth(n / 10); }
  }

  /** A copy is named by its index, a dash, and the path with everything but letters and digits made an underscore. */
  lemma CopyNameSpelled(i: nat, p: Path, k: nat)
    requires k < |p.dir + "/" + p.name|
    ensures var text, at := p.dir + "/" + p.name, |Pad3(i)| + 1;
            && |CopyName(i, p)| == at + |text| && CopyName(i, p)[at - 1] == '-' && CopyName(i, p)[..at - 1] == Pad3(i)
            && CopyName(i, p)[at + k] == (if 'a' <= text[k] <= 'z' || 'A' <= text[k] <= 'Z' || '0' <= text[k] <= '9' then text[k] else '_')
  {
    hide Pad3;
  }

  /** Two targets never share a snapshot copy: the index decides the name. */
  lemma CopyNamesAreDistinct(i: nat, p: Path, j: nat, q: Path)
    requires CopyName(i, p) == CopyName(j, q)
    ensures i == j
  {
    Pad3ReadsBack(i);
    Pad3ReadsBack(j);
    var a, b := Pad3(i), Pad3(j);
    assert forall k :: 0 <= k < |a| ==> CopyName(i, p)[k] == a[k] != '-';
    assert forall k :: 0 <= k < |b| ==> CopyName(j, q)[k] == b[k] != '-';
    assert CopyName(i, p)[|a|] == '-' && CopyName(j, q)[|b|] == '-';
    assert a == CopyName(i, p)[..|a|] == CopyName(j, q)[..|b|] == b;
  }

  function SavedPairs(targets: seq<Path>, dir: string): (s: seq<Saved>)
    ensures |s| == |targets|
  {
    seq(|targets|, i requires 0 <= i < |targets| => Saved(targets[i], Path(dir, CopyName(i, targets[i]))))
  }

  // ----- what a snapshot holds and what a restore computes -----

  ghost predicate Distinct(targets: seq<Path>) {
    forall i, j :: 0 <= i < j < |targets| ==> targets[i] != targets[j]
  }

  /** The copies reproduce, presence and contents, what the targets were in `before`. */
  ghost predicate HoldsCopies(before: Tree, now: Tree, saved: seq<Saved>) {
    forall i :: 0 <= i < |saved| ==>
      (saved[i].copy in now <==> saved[i].original in before) &&
      (saved[i].copy in now ==> now[saved[i].copy] == before[saved[i].original])
  }

  /** Copies live in a directory of their own, one per target. */
  ghost predicate WellSaved(saved: seq<Saved>, dir: string) {
    && (forall i :: 0 <= i < |saved| ==> saved[i].copy.dir == dir && saved[i].original.dir != dir)
    && (forall i, j :: 0 <= i < j < |saved| ==> saved[i].original != saved[j].original)
  }

  /** Everything a restore may write: the originals and their temporaries. */
  ghost function Touched(saved: seq<Saved>): set<Path> {
    (set i | 0 <= i < |saved| :: saved[i].original) + (set i | 0 <= i < |saved| :: TempOf(saved[i].original))
  }

  function RestoreStep(f: Tree, s: Saved): Tree {
    if s.copy in f then (f - {TempOf(s.original)})[s.original := f[s.copy]] else f - {s.original}
  }

  function RestoreAll(f: Tree, saved: seq<Saved>): Tree {
    if saved == [] then f
    else RestoreStep(RestoreAll(f, saved[..|saved| - 1]), saved[|saved| - 1])
  }

  /** A restored file whose temporary name is another saved file's own name. */
  ghost predicate TempClash(before: Tree, saved: seq<Saved>) {
    exists i, j :: 0 <= i < j < |saved| && saved[i].original in before && saved[j].original in before
                   && TempOf(saved[j].original) == saved[i].original
  }

  /** A restore never touches the copies, nor anything that is not a target or a temporary. */
  lemma {:induction false} RestoreLeavesRest(f: Tree, saved: seq<Saved>, p: Path)
    requires forall i :: 0 <= i < |saved| ==> p != saved[i].original && p != TempOf(saved[i].original)
    ensures SameAt(f, RestoreAll(f, saved), p)
  {
    if saved != [] {
      RestoreLeavesRest(f, saved[..|saved| - 1], p);
    }
  }

  lemma RestoreLeavesCopies(f: Tree, saved: seq<Saved>, dir: string, p: Path)
    requires WellSaved(saved, dir) && p.dir == dir
    ensures SameAt(f, RestoreAll(f, saved), p)
  {
    RestoreLeavesRest(f, saved, p);
  }

  /** After a restore, a target holds its snapshot unless a later temporary consumed it. */
  lemma {:induction false} RestoredTarget(before: Tree, f: Tree, saved: seq<Saved>, dir: string, i: nat)
    requires WellSaved(saved, dir) && HoldsCopies(before, f, saved) && i < |saved|
    ensures SameAt(before, RestoreAll(f, saved), saved[i].original) <==>
            !(saved[i].original in before &&
              exists j :: i < j < |saved| && saved[j].original in before && TempOf(saved[j].original) == saved[i].original)
  {
    var n := |saved| - 1;
    var init := saved[..n];
    var mid := RestoreAll(f, init);
    var last := saved[n];
    RestoreLeavesCopies(f, init, dir, last.copy);
    if i < n {
      RestoredTarget(before, f, init, dir, i);
      assert init[i] == saved[i] && last.original != saved[i].original;
      if last.original in before && TempOf(last.original) == saved[i].original {
        assert saved[i].original !in RestoreAll(f, saved);
      } else {
        assert forall j :: i < j < n ==> init[j] == saved[j];
      }
    }
  }

  /**
   Restore undoes any mutation of the targets exactly when no saved file's
   temporary name is an earlier saved file: the temporary of the later one is
   renamed away, and the earlier one with it.
   */
  lemma RestoreInvertsIff(before: Tree, f: Tree, saved: seq<Saved>, dir: string)
    requires WellSaved(saved, dir) && HoldsCopies(before, f, saved)
    ensures (forall i :: 0 <= i < |saved| ==> SameAt(before, RestoreAll(f, saved), saved[i].original))
            <==> !TempClash(before, saved)
  {
    forall i | 0 <= i < |saved|
      ensures SameAt(before, RestoreAll(f, saved), saved[i].original) <==>
              !(saved[i].original in before &&
                exists j :: i < j < |saved| && saved[j].original in before && TempOf(saved[j].original) == saved[i].original)
    {
      RestoredTarget(before, f, saved, dir, i);
    }
  }

  /**
   Such a pair of targets: `x` is renamed over through `.census-restore-x`, and a target of that name,
   restored before it, is gone afterwards. (A run never tracks a name that begins with a dot.)
   */
  lemma ClashLosesAFile(x: Path, dir: string, f: Tree)
    requires var y := Path(x.dir, ".census-restore-" + x.name);
             x.dir != dir && HoldsCopies(f, f, SavedPairs([y, x], dir)) && x in f && y in f
    ensures var y := Path(x.dir, ".census-restore-" + x.name);
            var saved := SavedPairs([y, x], dir);
            WellSaved(saved, dir) && TempClash(f, saved) && !SameAt(f, RestoreAll(f, saved), y)
  {
    hide CopyName;
    var saved := SavedPairs([TempOf(x), x], dir);
    assert saved[0].original == TempOf(x) && saved[1].original == x;
    RestoredTarget(f, f, saved, dir, 0);
  }

  /** Where a restore writes, the outcome depends on the copies alone. */
  lemma {:induction false} RestoreIgnoresTargets(f: Tree, g: Tree, saved: seq<Saved>, dir: string, p: Path)
    requires WellSaved(saved, dir)
    requires forall q: Path :: q.dir == dir ==> SameAt(f, g, q)
    requires SameAt(f, g, p) ||
             exists i :: 0 <= i < |saved| &&
               (p == saved[i].original || (saved[i].copy in f && p == TempOf(saved[i].original)))
    ensures SameAt(RestoreAll(f, saved), RestoreAll(g, saved), p)
  {
    if saved != [] {
      var n := |saved| - 1;
      var init, last := saved[..n], saved[n];
      RestoreLeavesCopies(f, init, dir, last.copy);
      RestoreLeavesCopies(g, init, dir, last.copy);
      assert SameAt(f, g, last.copy);
      if p != last.original && !(last.copy in f && p == TempOf(last.original)) {
        if !SameAt(f, g, p) {
          var i :| 0 <= i < |saved| &&
            (p == saved[i].original || (saved[i].copy in f && p == TempOf(saved[i].original)));
          assert i < n && init[i] == saved[i];
        }
        RestoreIgnoresTargets(f, g, init, dir, p);
      }
    }
  }

  /** Restoring twice is restoring once. */
  lemma RestoreIsIdempotent(f: Tree, saved: seq<Saved>, dir: string)
    requires WellSaved(saved, dir)
    ensures RestoreAll(RestoreAll(f, saved), saved) == RestoreAll(f, saved)
  {
    var g := RestoreAll(f, saved);
    forall q: Path | q.dir == dir ensures SameAt(f, g, q) { RestoreLeavesCopies(f, saved, dir, q); }
    forall p: Path ensures SameAt(g, RestoreAll(g, saved), p) {
      if !exists i :: 0 <= i < |saved| &&
           (p == saved[i].original || (saved[i].copy in f && p == TempOf(saved[i].original))) {
        UntouchedByRestore(f, saved, dir, p);
      }
      RestoreIgnoresTargets(f, g, saved, dir, p);
    }
    SameEverywhere(g, RestoreAll(g, saved));
  }

  lemma {:induction false} UntouchedByRestore(f: Tree, saved: seq<Saved>, dir: string, p: Path)
    requires WellSaved(saved, dir)
    requires forall i :: 0 <= i < |saved| ==>
               p != saved[i].original && (saved[i].copy in f ==> p != TempOf(saved[i].original))
    ensures SameAt(f, RestoreAll(f, saved), p)
  {
    if saved != [] {
      var init := saved[..|saved| - 1];
      UntouchedByRestore(f, init, dir, p);
      RestoreLeavesCopies(f, init, dir, saved[|saved| - 1].copy);
    }
  }

  lemma SameEverywhere(f: Tree, g: Tree)
    requires forall p :: SameAt(f, g, p)
    ensures f == g
  {
    forall p ensures p in f <==> p in g { assert SameAt(f, g, p); }
    forall p | p in f ensures f[p] == g[p] { assert SameAt(f, g, p); }
  }

  // ----- the session object -----

  /** At most one step from `was`: other files untouched, `dest` old or replaced by `contents`. */
  ghost predicate OldOrNew(was: Tree, now: Tree, tmp: Path, dest: Path, contents: Blob) {
    && Within(was, now, {tmp, dest})
    && (SameAt(was, now, dest) || (dest in now && now[dest] == contents))
  }

  /** Every state since `since` differs from `was` at most at the temporary. */
  ghost predicate OnlyTemp(was: Tree, trace: seq<Tree>, since: nat, tmp: Path) {
    forall k :: since <= k < |trace| ==> Within(was, trace[k], {tmp})
  }

  /** Write `contents` to an exclusively created temporary; a stale one is dropped first. */
  method StageTemp(disk: Disk, tmp: Path, contents: Blob) returns (ok: bool)
    modifies disk
    ensures Within(old(disk.files), disk.files, {tmp})
    ensures ok ==> disk.files == old(disk.files)[tmp := contents]
    ensures old(disk.trace) <= disk.trace && OnlyTemp(old(disk.files), disk.trace, |old(disk.trace)|, tmp)
  {
    var opening := disk.CreateNew(tmp);
    if opening.AlreadyExists? {
      var _ := disk.Remove(tmp);
      opening := disk.CreateNew(tmp);
    }
    if !opening.Opened? {
      return false;
    }
    ok := disk.WriteAll(tmp, contents);
    var permissions: bool := *;
    if !ok || !permissions {
      var _ := disk.Remove(tmp);
      return false;
    }
  }

  /**
   Replace `dest` by the contents of `src`. Whatever fails, and in every state
   the disk passes through, `dest` is whole: its old contents or the new ones.
   */
  method AtomicReplace(disk: Disk, src: Path, dest: Path) returns (r: Result<(), BackupError>)
    requires src in disk.files && src != TempOf(dest) && src != dest
    modifies disk
    ensures r.Ok? ==> disk.files == (old(disk.files) - {TempOf(dest)})[dest := old(disk.files[src])]
    ensures r.Err? ==> Within(old(disk.files), disk.files, {TempOf(dest)})
    ensures Within(old(disk.files), disk.files, {TempOf(dest), dest})
    ensures old(disk.trace) <= disk.trace
    ensures forall k :: |old(disk.trace)| <= k < |disk.trace| ==>
              OldOrNew(old(disk.files), disk.trace[k], TempOf(dest), dest, old(disk.files[src]))
  {
    var tmp := TempOf(dest);
    var contents := disk.files[src];
    var ok := StageTemp(disk, tmp, contents);
    forall k | |old(disk.trace)| <= k < |disk.trace|
      ensures OldOrNew(old(disk.files), disk.trace[k], tmp, dest, contents)
    {
      OldIsOldOrNew(old(disk.files), disk.trace[k], tmp, dest, contents);
    }
    OldIsOldOrNew(old(disk.files), disk.files, tmp, dest, contents);
    if !ok {
      return Err(CopyFailed(src, tmp));
    }
    ok := disk.Rename(tmp, dest);
    if !ok {
      var _ := disk.Remove(tmp);
      return Err(CopyFailed(tmp, dest));
    }
    return Ok(());
  }

  lemma OldIsOldOrNew(was: Tree, now: Tree, tmp: Path, dest: Path, contents: Blob)
    requires Within(was, now, {tmp}) && tmp != dest
    ensures OldOrNew(was, now, tmp, dest, contents)
  {
    WithinGrows(was, now, {tmp}, {tmp, dest});
    WithinAt(was, now, {tmp}, dest);
  }

  class Backup {
    const disk: Disk
    var targets: seq<Path>
    var snapshotDir: Option<string>
    var saved: seq<Saved>

    ghost predicate Valid()
      reads this
    {
      && Distinct(targets)
      && (snapshotDir.Some? ==> WellSaved(saved, snapshotDir.value))
    }

    constructor (disk: Disk, targets: seq<Path>)
      requires Distinct(targets)
      ensures Valid() && this.disk == disk && this.targets == targets
      ensures snapshotDir == None && saved == []
    {
      this.disk, this.targets, snapshotDir, saved := disk, targets, None, [];
    }

    /** Track one more file, unless it already is. */
    method AddFile(path: Path)
      requires Valid()
      modifies this`targets
      ensures Valid()
      ensures targets == if path in old(targets) then old(targets) else old(targets) + [path]
    {
      if path !in targets {
        targets := targets + [path];
      }
    }

    /** Copy every target that exists into `dir`, a directory nothing uses yet. */
    method Snapshot(dir: string) returns (r: Result<(), BackupError>)
      requires Valid()
      requires forall p :: p in disk.files ==> p.dir != dir
      requires forall i :: 0 <= i < |targets| ==> targets[i].dir != dir
      modifies this`snapshotDir, this`saved, disk
      ensures Valid()
      ensures forall p: Path :: p.dir != dir ==> SameAt(old(disk.files), disk.files, p)
      ensures r.Ok? ==> snapshotDir == Some(dir) && saved == SavedPairs(targets, dir)
                        && HoldsCopies(old(disk.files), disk.files, saved)
      ensures r.Err? ==> snapshotDir == old(snapshotDir) && saved == old(saved)
    {
      hide CopyName;
      var made: bool := *;
      if !made {
        return Err(Mkdir);
      }
      var pairs := SavedPairs(targets, dir);
      for i := 0 to |targets|
        invariant forall p: Path :: p.dir != dir ==> SameAt(old(disk.files), disk.files, p)
        invariant HoldsCopies(old(disk.files), disk.files, pairs[..i])
        invariant forall k :: i <= k < |targets| ==> pairs[k].copy !in disk.files
        invariant snapshotDir == old(snapshotDir) && saved == old(saved)
      {
        var original, copy := pairs[i].original, pairs[i].copy;
        forall k | 0 <= k < |targets| && k != i ensures pairs[k].copy != copy {
          if pairs[k].copy == copy { CopyNamesAreDistinct(k, targets[k], i, targets[i]); }
        }
        ghost var before := disk.files;
        if original in disk.files {
          var ok := disk.Copy(original, copy);
          forall p: Path | p.dir != dir ensures SameAt(old(disk.files), disk.files, p) {
            WithinAt(before, disk.files, {copy}, p);
            assert SameAt(old(disk.files), before, p);
          }
          if !ok {
            return Err(CopyFailed(original, copy));
          }
        }
        assert pairs[..i + 1] == pairs[..i] + [pairs[i]];
      }
      assert pairs[..|targets|] == pairs;
      snapshotDir, saved := Some(dir), pairs;
      return Ok(());
    }

    /**
     Put every saved file back. A refused removal of a file that was absent at
     the snapshot is only logged, so `Ok` alone does not mean restored: the
     files in `stuck` are the ones still standing. (A temporary's own name is
     the exception: restoring the file it belongs to takes it away.)
     */
    method Restore() returns (r: Result<(), BackupError>, stuck: set<Path>)
      requires Valid()
      modifies disk
      ensures snapshotDir.None? ==> r == Err(NoSnapshot) && disk.files == old(disk.files)
      ensures r.Ok? && stuck == {} ==> disk.files == RestoreAll(old(disk.files), saved)
      ensures forall p :: p in stuck ==> exists i :: 0 <= i < |saved| && saved[i].original == p && saved[i].copy !in old(disk.files)
      ensures forall p :: p in stuck && !Scratch(p) ==> p in disk.files
      ensures Within(old(disk.files), disk.files, Touched(saved))
    {
      stuck := {};
      if snapshotDir.None? {
        return Err(NoSnapshot), {};
      }
      for i := 0 to |saved|
        invariant Within(old(disk.files), disk.files, Touched(saved))
        invariant stuck == {} ==> disk.files == RestoreAll(old(disk.files), saved[..i])
        invariant forall p :: p in stuck ==> exists k :: 0 <= k < i && saved[k].original == p && saved[k].copy !in old(disk.files)
        invariant forall p :: p in stuck && !Scratch(p) ==> p in disk.files
      {
        var s := saved[i];
        assert saved[..i + 1][..i] == saved[..i];
        assert s.original in Touched(saved) && TempOf(s.original) in Touched(saved);
        WithinAt(old(disk.files), disk.files, Touched(saved), s.copy);
        label step:
        if s.copy in disk.files {
          r := AtomicReplace(disk, s.copy, s.original);
          forall p | p in stuck && !Scratch(p) ensures p in disk.files {
            WithinAt(old@step(disk.files), disk.files, {TempOf(s.original), s.original}, p);
          }
          WithinGrows(old@step(disk.files), disk.files, {TempOf(s.original), s.original}, Touched(saved));
          if r.Err? {
            return r, stuck;
          }
        } else {
          var removal := disk.Remove(s.original);
          if removal.Refused? {
            stuck := stuck + {s.original};
          }
        }
      }
      assert saved[..|saved|] == saved;
      r := Ok(());
    }

    /** Success: drop the snapshot directory, if that can be done. */
    method CommitSuccess()
      requires Valid()
      modifies this`snapshotDir, this`saved, disk
      ensures Valid() && snapshotDir == None && saved == []
      ensures forall p: Path :: old(snapshotDir) != Some(p.dir) ==> SameAt(old(disk.files), disk.files, p)
    {
      if snapshotDir.Some? {
        var removed: bool := *;
        if removed {
          var dir := snapshotDir.value;
          disk.Become(disk.files - (set p | p in disk.files && p.dir == dir));
        }
      }
      snapshotDir, saved := None, [];
    }
  }
}
