/**
 Whole histories of applies. `ApplyOnce` wires one run the way the command line
 does (src/cli/mod.rs): fresh seams, then the registry, written last and only
 when the run says so. The lemmas follow the account ledger across any number
 of such steps.
 */
module History {
  import opened Outcomes
  import opened Records
  import opened Plan
  import opened DiskModel
  import opened BackupModel
  import opened ProvisionerModel
  import opened FileAccess
  import opened ApplyPlan
  import opened Transaction
  import opened Ledger

  datatype World = World(machine: Machine, registry: seq<ManagedAccount>, groups: seq<ManagedGroup>)

  /** The registry on disk after a successful run. */
  function Written(w: World, report: Report): seq<ManagedAccount> {
    if report.registryWritten then report.managed else w.registry
  }

  /** A run that succeeded. */
  ghost predicate Succeeded(w: World, inp: Inputs, next: World, dir: string) {
    && Admissible(inp)
    && Applied(inp, dir, w.machine, next.machine)
    && exists report :: Reported(inp, report) && next.registry == Written(w, report)
                        && next.groups == (if report.registryWritten then report.groupRecords else w.groups)
  }

  /** A run that failed and was restored: nothing has happened. */
  ghost predicate RestoredRun(w: World, next: World, snapshot: string) {
    && next.registry == w.registry && next.groups == w.groups
    && Settled(next.machine.files, snapshot) == Settled(w.machine.files, snapshot)
    && next.machine.acl == w.machine.acl
  }

  ghost predicate Transition(w: World, inp: Inputs, next: World, dir: string, snapshot: string) {
    && inp.managed == w.registry && inp.managedGroups == w.groups
    && snapshot != "/etc" && snapshot != dir
    && (Succeeded(w, inp, next, dir) || RestoredRun(w, next, snapshot))
  }

  datatype Ending = Clean | NotRestored | NotStored

  /**
   `census apply`, once. A run that failed may not have been restored completely; a run that succeeded
   may have been unable to store its registry, and is not undone then.
   */
  method ApplyOnce(w: World, inp: Inputs, disk: Disk, dir: string, snapshot: string) returns (next: World, ending: Ending)
    requires inp.managed == w.registry && inp.managedGroups == w.groups && disk.files == w.machine.files
    requires snapshot != "/etc" && snapshot != dir && forall p :: p in disk.files ==> p.dir != snapshot
    modifies disk
    ensures next.machine.files == disk.files
    ensures ending == Clean ==> Transition(w, inp, next, dir, snapshot)
    ensures ending != Clean ==> next.registry == w.registry && next.groups == w.groups
    ensures ending == NotStored ==> Admissible(inp) && Applied(inp, dir, w.machine, next.machine)
  {
    hide Admissible, Applied, Reported;
    var backup := new Backup(disk, AUTH_DB);
    var prov := new Provisioner(disk, backup, w.registry, dir);
    var access := new AclBackend(disk, w.machine.acl);
    var r, undo := Run(inp, prov, access, snapshot);
    if r.Err? {
      next := World(Machine(disk.files, access.acl), w.registry, w.groups);
      return next, if undo.Clean() then Clean else NotRestored;
    }
    ghost var applied := Machine(disk.files, access.acl);
    var report := r.value;
    var stored: bool := *;
    if report.registryWritten && !stored {
      next := World(Machine(disk.files, access.acl), w.registry, w.groups);
      return next, NotStored;
    }
    backup.CommitSuccess();
    next := World(Machine(disk.files, access.acl),
                  if report.registryWritten then report.managed else w.registry,
                  if report.registryWritten then report.groupRecords else w.groups);
    CommitSucceeds(w, inp, applied, next, report, dir, snapshot);
    return next, Clean;
  }

  /** Dropping the snapshot directory changes nothing a run is about. */
  lemma CommitSucceeds(w: World, inp: Inputs, applied: Machine, next: World, report: Report, dir: string, snapshot: string)
    requires Admissible(inp) && Applied(inp, dir, w.machine, applied) && Reported(inp, report)
    requires forall p: Path :: p.dir != snapshot ==> SameAt(applied.files, next.machine.files, p)
    requires snapshot != "/etc" && snapshot != dir && next.machine.acl == applied.acl
    requires next.registry == Written(w, report)
    requires next.groups == (if report.registryWritten then report.groupRecords else w.groups)
    ensures Succeeded(w, inp, next, dir)
  {
    OutsideSnapshot(applied.files, next.machine.files, snapshot, dir);
  }

  /** The ledger reads only the accounts, the fragments and the entries. */
  lemma LedgerViews(registry: seq<ManagedAccount>, m: Machine, n: Machine, dir: string, owned: set<nat>)
    requires Balanced(registry, m, dir, owned)
    requires Accounts(m.files) == Accounts(n.files) && Fragments(m.files, dir) == Fragments(n.files, dir) && m.acl == n.acl
    ensures Balanced(registry, n, dir, owned)
  {
    forall a | a in registry ensures Describes(a, n, dir) { assert Describes(a, m, dir); }
  }

  lemma SettledViews(f: Tree, g: Tree, snapshot: string, dir: string)
    requires Settled(f, snapshot) == Settled(g, snapshot) && snapshot != "/etc" && snapshot != dir
    ensures Accounts(f) == Accounts(g) && Fragments(f, dir) == Fragments(g, dir)
  {
    assert PASSWD in Settled(f, snapshot) <==> PASSWD in f;
    assert PASSWD in Settled(g, snapshot) <==> PASSWD in g;
    forall p ensures p in Fragments(f, dir) <==> p in Fragments(g, dir) {
      if IsFragment(dir, p) {
        assert p in Settled(f, snapshot) <==> p in f;
        assert p in Settled(g, snapshot) <==> p in g;
      }
    }
    forall p | p in Fragments(f, dir) ensures Fragments(f, dir)[p] == Fragments(g, dir)[p] {
      assert p in Settled(f, snapshot) && p in Settled(g, snapshot);
      assert Settled(f, snapshot)[p] == f[p] && Settled(g, snapshot)[p] == g[p];
    }
  }

  /** A run that leaves the registry alone, or keeps fragments apart and grants in the order they were written. */
  ghost predicate Harmless(inp: Inputs, tree: seq<string>)
    requires inp.targets.Some? && inp.groups.Some?
  {
    (Idle(inp) && RunDeferred(inp) == []) || (FragmentsApart(inp) && OrderKept(inp, tree))
  }

  lemma SuccessKeepsLedgerIff(w: World, inp: Inputs, next: World, dir: string, owned: set<nat>)
    requires Balanced(w.registry, w.machine, dir, owned) && inp.managed == w.registry
    requires SoundInputs(inp, owned) && Succeeded(w, inp, next, dir)
    ensures Balanced(next.registry, next.machine, dir, owned) <==> Harmless(inp, w.machine.acl.tree)
  {
    hide Balanced, FragmentsApart, OrderKept, Admissible, Registry;
    if Idle(inp) && RunDeferred(inp) == [] {
      IdleRunShowsNothing(inp, dir, w.machine, next.machine);
      LedgerViews(w.registry, w.machine, next.machine, dir, owned);
    } else {
      RunKeepsLedgerIff(inp, dir, owned, w.machine, next.machine);
    }
  }

  lemma IdleRunShowsNothing(inp: Inputs, dir: string, before: Machine, after: Machine)
    requires inp.targets.Some? && inp.groups.Some? && Idle(inp) && Applied(inp, dir, before, after)
    ensures Accounts(before.files) == Accounts(after.files) && Fragments(before.files, dir) == Fragments(after.files, dir)
    ensures before.acl == after.acl
  {
    hide RunActions, RunGrantActions, RunGroupActions;
  }

  /** One step keeps the ledger exactly when it did not succeed, or was harmless. */
  lemma TransitionKeepsLedgerIff(w: World, inp: Inputs, next: World, dir: string, snapshot: string, owned: set<nat>)
    requires Balanced(w.registry, w.machine, dir, owned)
    requires SoundInputs(inp, owned) && Transition(w, inp, next, dir, snapshot)
    ensures Balanced(next.registry, next.machine, dir, owned) <==>
            (Succeeded(w, inp, next, dir) ==> Harmless(inp, w.machine.acl.tree))
  {
    hide Balanced, Harmless, Succeeded, Accounts, Fragments, Settled;
    if Succeeded(w, inp, next, dir) {
      SuccessKeepsLedgerIff(w, inp, next, dir, owned);
    } else {
      SettledViews(w.machine.files, next.machine.files, snapshot, dir);
      LedgerViews(w.registry, w.machine, next.machine, dir, owned);
    }
  }

  /** A history: each world follows from the one before by some apply. */
  ghost predicate IsHistory(worlds: seq<World>, runs: seq<Inputs>, snapshots: seq<string>, dir: string, owned: set<nat>) {
    && |worlds| == |runs| + 1 && |snapshots| == |runs|
    && forall i :: 0 <= i < |runs| ==>
         SoundInputs(runs[i], owned) && Transition(worlds[i], runs[i], worlds[i + 1], dir, snapshots[i])
  }

  /** Every run of the history that succeeded was harmless on the machine it met. */
  ghost predicate AllHarmless(worlds: seq<World>, runs: seq<Inputs>, dir: string, n: nat)
    requires n <= |runs| < |worlds|
  {
    forall i :: 0 <= i < n ==>
      runs[i].targets.Some? && runs[i].groups.Some? &&
      (Succeeded(worlds[i], runs[i], worlds[i + 1], dir) ==> Harmless(runs[i], worlds[i].machine.acl.tree))
  }

  ghost predicate AllBalanced(worlds: seq<World>, dir: string, owned: set<nat>, n: nat)
    requires n < |worlds|
  {
    forall i :: 0 <= i <= n ==> Balanced(worlds[i].registry, worlds[i].machine, dir, owned)
  }

  /**
   Over any sequence of successful applies, and of failed ones that were restored, the registry describes
   the machine at every point and nothing it dropped is left, exactly as long as every apply is harmless.
   */
  lemma {:induction false} HistoriesBalanceIff(worlds: seq<World>, runs: seq<Inputs>, snapshots: seq<string>, dir: string, owned: set<nat>, n: nat)
    requires IsHistory(worlds, runs, snapshots, dir, owned) && n <= |runs|
    requires Balanced(worlds[0].registry, worlds[0].machine, dir, owned)
    ensures AllBalanced(worlds, dir, owned, n) <==> AllHarmless(worlds, runs, dir, n)
  {
    hide Balanced, SoundInputs, Transition, Succeeded, Harmless;
    if n > 0 {
      HistoriesBalanceIff(worlds, runs, snapshots, dir, owned, n - 1);
      StepOfHistory(worlds, runs, snapshots, dir, owned, n - 1);
      if Balanced(worlds[n - 1].registry, worlds[n - 1].machine, dir, owned) {
        TransitionKeepsLedgerIff(worlds[n - 1], runs[n - 1], worlds[n], dir, snapshots[n - 1], owned);
      }
    }
  }

  lemma StepOfHistory(worlds: seq<World>, runs: seq<Inputs>, snapshots: seq<string>, dir: string, owned: set<nat>, i: nat)
    requires IsHistory(worlds, runs, snapshots, dir, owned) && i < |runs|
    ensures SoundInputs(runs[i], owned) && Transition(worlds[i], runs[i], worlds[i + 1], dir, snapshots[i])
    ensures runs[i].targets.Some? && runs[i].groups.Some?
  {
    hide Transition;
  }

  /** A machine Census has never touched is a sound beginning. */
  lemma FirstApplyIsBalanced(m: Machine, dir: string, owned: set<nat>)
    requires forall n :: n in Accounts(m.files) ==> Accounts(m.files)[n].uid !in owned
    requires forall u, path :: u in owned ==> AclKey(ByUid(u), path) !in m.acl.entries
    requires Fragments(m.files, dir) == map[]
    ensures Balanced([], m, dir, owned)
  {
  }
}
