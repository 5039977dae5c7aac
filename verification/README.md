# Census: a Dafny model of its permission compiler and its apply transaction

Census turns a signed declaration of role accounts into Unix state: accounts, groups and their members,
sudoers fragments and POSIX ACL entries. This project models the two places where that can go wrong, and three smaller ones
around them, and proves what they promise.

**The apply transaction** (`src/apply.rs`, `src/backup.rs`, `src/lockout.rs`, with the planner, the two
seams and the command-line wiring). The disk is a file map whose every primitive call may fail after
changing part of its own footprint; the provisioner and the ACL backend are classes over it.

- `Disk`, `Backup` - the file map, the snapshot and the restore
- `Plan`, `Declaration`, `Lockout` - what a run intends, what a declaration must satisfy, the lockout gate
- `Provisioner`, `FileAccess`, `Apply` - the seams, deferral, touched paths, the new registry
- `Transaction` - one run: refusals, snapshots, phases, rollback from any point
- `Effects`, `Ledger`, `History`, `LostRegistry` - the account ledger, over one run and over whole histories
- `Deferral`, `GroupLedger`, `Membership` - live sessions, lockout over a run, what the group records are
  worth, and who is in which group afterwards
- `Nesting`, `Counterexamples` - grants inside one another, and runs in which a promise fails

**The permission compiler** (`src/catalog.rs`). It merges OS layers, unions bundles transitively,
materializes categories and rewrites `{placeholder}` templates in up to two stages.

- `Paths`, `Constraints`, `CatalogTypes`, `CatalogRecords` - gates, constraints, records and their validation
- `Templates`, `TemplateClash`, `Rendering` - placeholders as strings and as holes, and filling them
- `Grants`, `Leaf` - the by-path union, the layer fold and its closed form
- `Expansion`, `Resolver` - bound members and the recursive resolve
- `Facts`, `BundleMeaning`, `IncludeGraph`, `BundleRisk`, `BundleParams`, `RoleParams`,
  `RoleMeaning` - what it all means
- `BundleAcceptance`, `Acceptance` - exactly when a bundle resolves and when a role's parameters are taken

**Around them**: `CoverageIndex` and `CoverageReport` (`src/coverage.rs`), `Json` (`src/cli/render.rs`).
`Outcomes` and `Records` hold the shared types.

Where the source loops over mutable state the model does too: classes with `modifies` clauses for the
disk, the backup, the seams and the transaction, and methods with loops for the resolver, the renderer,
the planner, the audit and the printer, each proved equal to a function that the lemmas are about.

## What turned out not to hold

The code is modelled as it is. Where a promise fails, a lemma gives the exact condition, and a run or an
input that shows the failure.

- *Rollback.* Restoring writes each file through a `.census-restore-<name>` beside it, so a tracked file
  of that very name is renamed away when a later file is restored; and a file that should be removed but
  cannot be is only logged (`src/backup.rs:139-162`). `BackupModel.RestoreInvertsIff` gives the first
  condition and `ClashLosesAFile` the pair of names; no run meets it, since `Transaction.TrackFragments`
  shows that no tracked file bears such a name. `Backup.Restore` returns the second as `stuck`: with
  both restores reported successful, a failed run is undone exactly when `stuck` is empty.
- *Fragment names.* An account's sudoers fragment is `census-<role>`, a group's is `census-grp-<group>`:
  they are the same file exactly when the role is `grp-` plus the group (`src/sudoers.rs:22-31`), and the
  role grammar allows such a role. The account ledger survives a run only if no group the run acts on takes
  the fragment of a recorded account, unless neither has a rule (`Ledger.RunKeepsLedgerIff`,
  `Counterexamples.CrossedRunLosesARule`); an unchanged group loses its fragment to an account the same way.
- *Nested grants.* Every grant and revoke is recursive (`src/fileaccess.rs:274-328`), so a list means the
  last grant at or above a path. The in-sync test ignores the order of the list (`src/plan.rs:238-256`):
  an account whose nested grants were only reordered is not written again, and its new record claims what
  the machine does not have. The group phase sets the kept grants before it revokes the dropped ones
  (`src/apply.rs:728-779`), so a group that moves from `/srv` to `/srv/data`, or drops `/srv/data` and keeps
  `/srv`, is stripped of what it keeps. `Ledger.RunKeepsLedgerIff`, `GroupLedger.ChangedGroupIsDescribedIff`
  and `Nesting` give the conditions, `Counterexamples` the runs.
- *Group records.* A group that is still joined but no longer declared loses its grants while its record
  is carried over verbatim (`src/apply.rs:1450-1455`), so the record is true exactly when it had none to
  lose; the loss then survives a later declaration of the same grants. Re-applying an unchanged
  declaration plans no grant work exactly when every group Census owns is declared.
- *Members.* An account's own list is written absolutely by `usermod -G` (`src/mutate.rs:138-182`), a group's
  members one by one by `gpasswd`, and only when the group's record differs. An account whose list changes is
  thereby taken out of a group that lists it and is in sync, and that group's record goes on claiming it; a
  group that stays joined but is no longer declared puts its recorded members out, even those who join it by
  their own list. `MembershipLedger.TargetEnrolledIff` gives the exact condition,
  `Counterexamples.MovedAccountLosesItsCrew` the run.
- *Assigned GIDs.* The GID the system gives a new group is read back so that the registry has it
  (`src/apply.rs:524-536`), but for a declared group the declaration's record replaces that one and falls
  back to readings from before the run: it holds none (`MembershipLedger.DeclaredGroupForgetsItsGid`).
- *Live sessions.* A deferred account is said to keep its full prior privilege (`src/apply.rs:319-346`). Its
  own account, entries and groups stay, but an undeclared group it holds is still torn down, and the
  privilege held through the group with it (`GroupLedger.DeferredGroupPrivilegeIff`).
- *Registry.* The registry is written last, and a failed write undoes nothing (`src/cli/mod.rs:432-444`):
  the old registry then still describes the machine exactly when every executed action was an update that
  changes neither shell, nor rule, nor permissions, and no group took a fragment.
- *Placeholders.* Names that contain `{` are called unsupported but not refused. Replacing one name at a
  time equals filling all holes at once, for all values, exactly when no name is replaced before one that
  ends in `{` followed by it. The constraint closure is stated for brace-free names, which always qualify.
- *List elements.* A list inside a list is refused by a template but accepted through a binding exactly
  when it has one element, an acceptable scalar (`src/catalog.rs:3705-3783`): `RoleParams.BindingsAcceptIff`.
- *Stored shapes.* The audit stores shape `Dir` for a recursive glob path it meets twice
  (`src/coverage.rs:718-732`), so a pattern no backend enforces is then counted as covered. It happens
  exactly for such repeated paths.
- *Ties.* Between equally ranked covering grants the documentation says the first one is kept; the code
  keeps the first when they may write and the last when they may not (`src/coverage.rs:1046-1066`).

Two further readings of the code against its comments: the registry keeps the command order of the new
declaration while the live fragment keeps the order it was written with, so the ledger compares command
lists up to order; and `has_placeholder` in `src/coverage.rs` counts `{}` while the catalog's does not.

## Model

| member | source | states |
|---|---|---|
| `BackupModel.CopyNamesAreDistinct` | src/backup.rs:116-134 | two targets never share a snapshot copy: the three-digit index in the name decides it, for every index |
| `BackupModel.CopyNameSpelled` | src/backup.rs:116-134 | a copy is named by its index, a dash, and the path with everything but letters and digits made an underscore, character by character |
| `BackupModel.Pad3Width` | src/backup.rs:116-134 | the index has at least three digits and no more zeros in front than that takes |
| `BackupModel.Backup.constructor` | src/backup.rs:88-95 | a backup starts without a snapshot and with exactly the given targets |
| `BackupModel.Backup.AddFile` | src/backup.rs:108-110 | adds a target at the end unless it is already tracked |
| `BackupModel.Backup.Snapshot` | src/backup.rs:116-134 | success means every target that existed has a copy and the absent ones have none; nothing outside the snapshot directory changes, success or not |
| `BackupModel.Backup.Restore` | src/backup.rs:139-162 | no snapshot is an error that changes nothing; a complete restore is the fold over all saved pairs; `stuck` are the absent-at-snapshot files it could not remove, and unless they bear a temporary's name they still stand; nothing but targets and their temporaries is ever touched |
| `BackupModel.Backup.CommitSuccess` | src/backup.rs:165-181 | forgets the snapshot and touches nothing outside its directory |
| `BackupModel.StageTemp` | src/backup.rs:254-330 | in every state on the way only the temporary differs; success leaves it holding the full contents |
| `BackupModel.AtomicReplace` | src/backup.rs:254-330 | in every state the disk passes through the destination is whole: its old contents or the new ones, whatever fails |
| `BackupModel.RestoredTarget` | src/backup.rs:139-162 | one target is back, contents and presence, exactly when no later target's temporary bears its name |
| `BackupModel.RestoreInvertsIff` | src/backup.rs:139-162 | restore undoes every mutation of the targets if and only if no saved file's temporary name is an earlier saved file |
| `BackupModel.ClashLosesAFile` | src/backup.rs:139-162 | tracking `.census-restore-x` before `x` loses the former, for every `x` |
| `BackupModel.RestoreIsIdempotent` | src/backup.rs:139-162 | restoring twice is restoring once, from any state |
| `Plan.Diff` | src/plan.rs:322-355 | the account plan: creates and updates in target order, then deletes in registry order, as the comparison of the compared fields calls for |
| `Plan.DiffContains` | src/plan.rs:162-355 | a create is planned if and only if the target is unrecorded; an update if and only if a record of that name has another UID, shell, alias, or another collection of groups, of commands with their run-as, or of grants; a delete if and only if no target names the record |
| `Plan.DiffIsDistinct` | src/plan.rs:322-355 | no account is named by two actions |
| `Plan.DiffGroups` | src/plan.rs:376-459 | refuses exactly the inconsistent pins and drifted GIDs, stated on the pins and readings themselves; otherwise creates the missing and deletes the owned, unrequired groups |
| `Plan.GroupCreatesContain` | src/plan.rs:376-459 | a group is created if and only if it is required and absent, with the required pin |
| `Plan.GroupDeletesContain` | src/plan.rs:376-459 | a group is deleted if and only if it is recorded as created by Census and no longer required |
| `Plan.DiffResolvedGroups` | src/plan.rs:522-565 | the grant plan over declared groups, then the teardown of recorded, undeclared ones |
| `Plan.GrantHeadsContain` | src/plan.rs:522-565 | which declared groups are created, adopted or updated, both directions |
| `Plan.GrantTeardownsContain` | src/plan.rs:522-565 | which recorded groups are deleted or released, both directions |
| `Plan.GrantPlanContains` | src/plan.rs:522-565 | the whole grant plan, both directions: a declared group is created, adopted or updated as its record is missing or differs field by field, an undeclared recorded one deleted or released by its provenance |
| `DeclarationModel.ValidateAccounts` | src/declaration.rs:328-502 | accepts exactly the account lists that are well formed one by one and unique in role and UID |
| `DeclarationModel.ValidateGroup` | src/declaration.rs:328-502 | accepts exactly a well-formed group |
| `DeclarationModel.ValidateGroups` | src/declaration.rs:328-502 | accepts exactly the group lists that are well formed and unique by name |
| `DeclarationModel.ValidateBindings` | src/declaration.rs:328-502 | accepts exactly the role-group bindings that name a role id and a declared group, none twice |
| `DeclarationModel.Validate` | src/declaration.rs:328-502 | accepts a declaration if and only if it is valid |
| `DeclarationModel.RoleIdSpelled` | src/declaration.rs:304-317 | a role id is a letter and then up to fifteen letters, digits or dashes, nothing else |
| `DeclarationModel.GroupNameSpelled` | src/declaration.rs:275-300 | a group or user name is a letter or underscore and then up to thirty-one letters, digits, underscores or dashes |
| `DeclarationModel.ManagedSpelled` | src/declaration.rs:417-429 | a login is managed if and only if an account adopts that user, or adopts none and is the role of that name |
| `DeclarationModel.TargetsExactly` | src/model.rs:630-840 | the targets are exactly the accounts with a UID, each with its own shell or the default, and with what its role composes to |
| `DeclarationModel.ValidTargetsAreUnique` | src/declaration.rs:328-502 | a valid declaration resolves to targets with distinct names and UIDs, the premise of the ledger |
| `DeclarationModel.RoleIdMayLookLikeAGroupFragment` | src/declaration.rs:304-317 | the role grammar admits a name from the namespace of group fragments |
| `DeclarationModel.RequiredGroups` | src/declaration.rs:533-559 | the required set with its pins, or the first invalid group name a role brings in |
| `DeclarationModel.RequiredExactly` | src/declaration.rs:533-559 | a group is required if and only if some target joins it or it is declared |
| `ProvisionerModel.FragmentsCollideIff` | src/sudoers.rs:22-31 | an account's and a group's fragment are the same file if and only if the role is `grp-` plus the group |
| `ProvisionerModel.Provisioner.Create` | src/mutate.rs:93-133 | adds the account and puts it in its groups, all of which exist; or fails within the auth database |
| `ProvisionerModel.Provisioner.Update` | src/mutate.rs:138-182 | changes the shell, and the groups to exactly the new list when the collection differs from the record's; without a record, with a changed UID or on a failed command it fails within the auth database |
| `ProvisionerModel.Provisioner.Delete` | src/mutate.rs:397-399 | removes the account and its memberships, or fails within the auth database |
| `ProvisionerModel.Provisioner.CreateGroup` | src/mutate.rs:401-403 | the named group exists afterwards, was not there before, has the pinned GID and no members; every other group is as it was; a failure stays within the group databases |
| `ProvisionerModel.Provisioner.GroupGid` | src/mutate.rs:405-422 | a reading is the GID the table holds; it may also fail |
| `ProvisionerModel.Provisioner.DeleteGroup` | src/mutate.rs:424-426 | the named group and its memberships are gone and nothing else; a failure stays within the group databases |
| `ProvisionerModel.Provisioner.AddGroupMember` | src/mutate.rs:464-466 | adds exactly the one membership |
| `ProvisionerModel.Provisioner.RemoveGroupMember` | src/mutate.rs:468-470 | removes exactly the one membership |
| `ProvisionerModel.Provisioner.ApplyRule` | src/mutate.rs:428-462 | the fragment holds the rule, or is absent when there is none; a failure stays within the fragment and its temporary |
| `ProvisionerModel.Provisioner.Snapshot` | src/mutate.rs:476-480 | delegates to the backup and keeps everything outside the snapshot directory |
| `ProvisionerModel.Provisioner.Restore` | src/mutate.rs:482-486 | delegates to the backup's restore |
| `FileAccess.PermFor` | src/fileaccess.rs:244-262 | an entry reads if and only if the grant reads, writes if and only if it writes, executes files if and only if it executes, and only searches directories if and only if it traverses and does not execute |
| `FileAccess.AclBackend.Materialize` | src/fileaccess.rs:586-639 | success sets the principal's entry on every existing path at or under each granted one, grant by grant in list order; a failure stays within those subtrees |
| `FileAccess.AclBackend.Revoke` | src/fileaccess.rs:641-679 | success leaves the principal no entry at or under the path and changes no other entry; a failure stays within the subtree |
| `FileAccess.AclBackend.Snapshot` | src/fileaccess.rs:681-725 | remembers every entry at or under the given paths |
| `FileAccess.AclBackend.Restore` | src/fileaccess.rs:727-740 | puts the subtrees of the remembered paths back as they were and touches nothing else |
| `FileAccess.AclRestoreUndoes` | src/fileaccess.rs:681-740 | restoring undoes any change confined to the subtrees of the snapshotted paths |
| `ApplyPlan.ReconcileLiveSessions` | src/apply.rs:905-941 | splits the plan into executed actions and deferred deletes, in order |
| `ApplyPlan.ExecutedContains` | src/apply.rs:905-941 | an action is executed if and only if it is planned and is not the deletion of a recorded account whose name or UID has a live session |
| `ApplyPlan.DeferredContains` | src/apply.rs:905-941 | a name is deferred if and only if its deletion is planned, it is recorded, and its name or its recorded UID has a live session |
| `ApplyPlan.KeptGroupActions` | src/apply.rs:373-393 | exactly the deletes of groups a deferred account holds are dropped from the group plan |
| `ApplyPlan.FoldDeferredRequires` | src/apply.rs:373-393 | the required set grows by exactly the deferred accounts' groups |
| `ApplyPlan.DroppedContains` | src/apply.rs:1092-1106 | a recorded grant is revoked if and only if its path is no longer granted |
| `ApplyPlan.FileAccessTouchedPaths` | src/apply.rs:1145-1184 | covers every path any executed account action materializes or revokes |
| `ApplyPlan.GroupFileAccessTouchedPaths` | src/apply.rs:1215-1253 | covers every path any group grant action materializes or revokes |
| `ApplyPlan.BuildManagedSet` | src/apply.rs:1359-1424 | the new account registry: a record per target, then the deferred records |
| `ApplyPlan.RetainedContains` | src/apply.rs:1359-1424 | exactly the deferred accounts' old records are carried over, unchanged |
| `ApplyPlan.BuildManagedGroups` | src/apply.rs:1435-1551 | the new group registry: carried, then created, then declared |
| `Transaction.GateGrants` | src/apply.rs:244-268 | refuses if and only if some account or group grant cannot be routed to the backend |
| `Transaction.Preflight` | src/apply.rs:204-418 | every refusal before the first mutation: succeeds if and only if the inputs are admissible, and then returns the plan of the run |
| `Deferral.AdmissibleExactly` | src/apply.rs:204-418 | the inputs are admissible if and only if everything could be read and routed, the pins and recorded GIDs agree with the system, no group name is malformed, and a login remains, a rescue channel is there, the risk was acknowledged or no account is touched |
| `Transaction.TrackFragments` | src/apply.rs:459-476 | the tracked files are exactly the auth database and the fragments the phases will write, none twice, and none bears a temporary's name |
| `Transaction.Begin` | src/apply.rs:459-511 | both snapshots taken, exactly the plan's files tracked, every path of the plan covered, and nothing but the snapshot changed; after a failed dump the files are back if and only if the restore was clean |
| `Transaction.RestoreUndoes` | src/apply.rs:989-1061 | restoring undoes anything done to tracked files and temporaries |
| `Transaction.SettledIff` | src/apply.rs:989-1061 | what it means to be back: every file but temporaries and the snapshot has the same presence and contents |
| `Transaction.Tx.RollBack` | src/apply.rs:989-1061 | both seams are asked to restore; when both report success the machine is back at the snapshot if and only if nothing was stuck |
| `Transaction.Tx.CreateGroups` | src/apply.rs:521-555 | phase 1: exactly the planned groups are made, each with its pin and empty, and reported with the pin or the GID read back; accounts and fragments untouched |
| `Transaction.Tx.AccountPhase` | src/apply.rs:556-596 | phases 2 and 3: accounts, their group lists and their fragments are the planned ones |
| `Transaction.Tx.GrantPhase` | src/apply.rs:597-642 | phase 3b: per account the removed grants are revoked, then the new ones set, each over its whole subtree |
| `Transaction.Tx.DeletePhase` | src/apply.rs:643-669 | the subtrees of every recorded grant of a deleted account are revoked by its UID |
| `Transaction.Tx.GroupGrant` | src/apply.rs:671-847 | one group's fragment, its grants set and then the dropped ones revoked over their subtrees; members come and go so that (old less recorded and undeclared) plus declared remain; on failure the whole run is rolled back |
| `Transaction.Tx.GroupGrantPhase` | src/apply.rs:671-847 | phase 3c over the whole grant plan, members included |
| `Transaction.Tx.DeleteGroups` | src/apply.rs:849-871 | phase 4: exactly the groups planned for deletion are gone with their memberships; no account and no fragment changes |
| `Transaction.GrantPlanIsNeverCorrupt` | src/apply.rs:671-847 | the corrupt-plan branch is dead: every planned grant action finds its group |
| `Transaction.Execute` | src/apply.rs:513-871 | all phases in order: the planned effect, or a rollback; when both seams report success it leads back if and only if it is clean |
| `Transaction.MakeReport` | src/apply.rs:873-898 | the registry contents and counters of a successful run |
| `Transaction.Transact` | src/apply.rs:459-898 | snapshot to report: success with the planned effect, the report with the GIDs as the table has them, and every other file untouched; or a failure with everything restored, exactly when the undo is clean |
| `Transaction.Run` | src/apply.rs:204-898 | one apply: success means exactly the planned effect on accounts, groups, memberships, fragments and entries, every file outside the plan untouched, and the promised registry; a failure at any call leaves every file and every entry as found, and when both restores report success exactly if nothing was stuck; inadmissible inputs touch nothing |
| `Effects.AccountTouched` | src/apply.rs:556-596 | after the account phase a named account is as its one action left it |
| `Effects.AccountUntouched` | src/apply.rs:556-596 | an account no action names is as it was |
| `Effects.CreatedUidIsNew` | src/apply.rs:556-596 | a successful create used a UID nobody else had |
| `Effects.EntryTouched` | src/apply.rs:597-642 | after the grant phase a path has the permission of the last grant at or above it, or nothing where only revoked grants reach |
| `Effects.EntryStripped` | src/apply.rs:643-669 | a deleted account keeps no entry where its recorded grants reach |
| `Ledger.TargetAccount` | src/apply.rs:556-596 | after a run every target's account has its UID and shell |
| `Ledger.TargetFragment` | src/apply.rs:556-596 | after a run a target's fragment says its rule if and only if no group's action contests the file |
| `Ledger.TargetSudoers` | src/apply.rs:556-596 | spelled out: the fragment holds the target's commands under its name, else its alias, else does not exist, if and only if no group contests the file |
| `Ledger.TargetEntries` | src/apply.rs:597-669 | after a run a target's entries on every path are exactly what the list it was last written from asks for, created, updated or left alone |
| `Nesting.TargetHasTheBits` | src/apply.rs:597-642 | after a run the entry on any existing path reads, writes, executes and searches exactly as the grant that decides the path says |
| `Ledger.DeferredIsDescribedIff` | src/apply.rs:295-318 | a deferred account keeps its account and its entries, and its record describes it if and only if no group contests its fragment |
| `Ledger.DroppedIsGone` | src/apply.rs:556-669 | a deleted account has no account and no entry left, and no fragment if and only if no group puts its own in the same file |
| `Ledger.NewRegistryIsUnique` | src/apply.rs:1359-1424 | the new registry has distinct names and UIDs |
| `Ledger.RecordOfTarget` | src/apply.rs:1359-1424 | the new record is the target field by field, and keeps its version if and only if no compared field differs |
| `Ledger.RecordDescribesIff` | src/apply.rs:1359-1424 | the new record of a target describes the machine if and only if no group contests its fragment and the list its entries were written from still means the same |
| `Ledger.RunKeepsLedgerIff` | src/apply.rs:1359-1424 | a successful run carries the ledger to its new registry (every record describes the machine, and nothing in the owned UID band belongs to an unrecorded account) if and only if fragments stay apart and no in-sync target changed the meaning of its grants by their order |
| `History.ApplyOnce` | src/cli/mod.rs:419-453 | one command-line apply: a transition, or an incomplete restore, or a run that stands without its registry |
| `History.TransitionKeepsLedgerIff` | src/cli/mod.rs:419-453 | one step keeps the ledger if and only if it was restored, left the registry alone, or was harmless |
| `History.HistoriesBalanceIff` | src/apply.rs:1359-1424 | over any sequence of successful and of restored applies the registry describes the machine at every point, and nothing it dropped is left, if and only if every successful run was harmless |
| `History.FirstApplyIsBalanced` | src/state.rs:240-246 | a machine Census never touched, with an empty registry, is a sound beginning |
| `LostRegistry.OldRegistryHoldsIff` | src/cli/mod.rs:432-444 | when a successful run could not store its registry, the old one still describes the machine if and only if every executed action was an update the ledger cannot see and no group took a fragment |
| `Deferral.LiveSessionIsSafe` | src/apply.rs:307-393 | a dropped account whose name or UID has a live session is named by no action, keeps account and entries, keeps its record unchanged, none of its groups is deleted, and its fragment stands if and only if no group contests it |
| `Deferral.DeferredExactly` | src/apply.rs:905-941 | exactly the recorded accounts without a target whose name or UID has a live session are deferred |
| `Deferral.DeferralIsTransparent` | src/apply.rs:1359-1424 | once the session is over, re-applying reports the registry the first run would have reported without it |
| `Deferral.RerunOnlyDeletesDeferred` | src/apply.rs:905-941 | and the second run does nothing but finish the deferred deletions |
| `Deferral.GateIsExact` | src/lockout.rs:48-134 | a plan passes the gate if and only if it touches no account, a rescue channel is there, the risk was acknowledged, or the registry the run reports has an account whose shell opens a session |
| `Deferral.DeferringNeverLocksOut` | src/apply.rs:395-418 | deferring deletions never turns an accepted plan into a refused one |
| `GroupLedger.RecordOfGroup` | src/apply.rs:1435-1551 | the new record of any group, field by field: a declared one takes members, commands, grants and provenance from the declaration, its GID from the pin, else the old record, else the live reading, its baseline from the first adoption, and its version moves if and only if something differs; an undeclared one is carried or made empty with the GID read back, or there is none |
| `GroupLedger.GroupRecordsAreUnique` | src/apply.rs:1435-1551 | one record per group name, whatever the run started from |
| `GroupLedger.GrantActionOn` | src/plan.rs:522-565 | what the grant plan does to a given group, both directions |
| `GroupLedger.ChangedGroupSudoers` | src/apply.rs:671-727 | the fragment of a changed group holds its commands under `%` and its name, or does not exist |
| `GroupLedger.CarriedRecordIsTrueIff` | src/apply.rs:1450-1455 | the record of an undeclared group is true after the run if and only if it has no command and its grants reach nothing that exists |
| `GroupLedger.ChangedGroupIsDescribedIff` | src/apply.rs:720-779 | the new record of a changed group is true if and only if no existing path is reached both by a grant it keeps and by one that is revoked afterwards |
| `GroupLedger.GroupRecordIsTrueIff` | src/apply.rs:1435-1551 | a known group's new record describes the machine if and only if: changed, nothing it keeps is severed; unchanged, no account claims its fragment and its grants kept their meaning; undeclared, it had nothing to lose |
| `GroupLedger.OldGroupRecordIsTrueIff` | src/apply.rs:671-847 | what a group's old record granted survives the run if and only if the declaration still grants it by a route no later revoke crosses |
| `GroupLedger.DeferredGroupPrivilegeIff` | src/apply.rs:319-393 | no group of a deferred account is deleted, but an undeclared one is still torn down: the privilege held through it stays under exactly that condition |
| `GroupLedger.LostGrantsStayLost` | src/apply.rs:1450-1455 | declaring the group again with the grants its record still claims plans nothing, so they stay lost |
| `GroupLedger.SecondApplyIsQuietIff` | src/plan.rs:522-565 | applying the same declaration twice plans no grant work if and only if every group Census owns is declared |
| `MembershipLedger.MakesExactly` | src/apply.rs:521-555 | a group is made if and only if some target joins it or it is declared, and the system lacks it |
| `MembershipLedger.DeletesExactly` | src/apply.rs:849-871 | a group is deleted if and only if Census made it, nobody joins or declares it, and no deferred account holds it |
| `MembershipLedger.GroupExistsIff` | src/apply.rs:513-871 | a group exists after a run if and only if it did or was made and was not deleted; no GID ever changes |
| `MembershipLedger.PinIsTheGid` | src/apply.rs:521-555 | a group the run made with a pin has that GID |
| `MembershipLedger.DeclaredGroupForgetsItsGid` | src/apply.rs:1489-1500 | a declared group without a pin that the run itself made exists, but its record holds no GID |
| `MembershipLedger.MembersExactly` | src/apply.rs:513-871 | who is in an existing group after a run: what the account phases and then the grant phase leave of the membership |
| `MembershipLedger.ChangedGroupMembers` | src/apply.rs:772-800 | a changed group has lost its recorded, undeclared members and gained its declared, unrecorded ones; nobody else moved |
| `MembershipLedger.TornDownMembers` | src/apply.rs:804-847 | a group torn down has lost exactly its recorded members |
| `MembershipLedger.TargetEnrolledIff` | src/mutate.rs:138-182 | a target in exactly its recorded groups and those that recorded it is, after the run, in exactly its declared groups and those whose new record lists it, if and only if for every group the declaration and the two old records land where the new records claim |
| `MembershipLedger.TargetIsInItsGroups` | src/mutate.rs:93-182 | a target no group lists is in exactly its groups, except in a group made anew while its own list stayed the same |
| `Nesting.GrantHoldsIff` | src/fileaccess.rs:586-639 | a grant of a list holds on its own path if and only if the last grant at or above that path asks for the same bits |
| `Nesting.TargetGrantHoldsIff` | src/apply.rs:597-642 | after a run a target has a grant's access on its own path if and only if no later grant overwrites it |
| `Nesting.OrderNeverMattersIff` | src/plan.rs:238-256 | the order of a grant list never matters, as the in-sync test assumes, if and only if nested grants ask for the same bits |
| `Nesting.AgreeingKeepsOrder` | src/plan.rs:238-256 | targets whose nested grants agree never lose their meaning to an order |
| `Nesting.SeveredIff` | src/apply.rs:728-779 | for existing directories a kept grant is severed if and only if a kept and a revoked path lie one inside the other |
| `Counterexamples.CrossedRunLosesARule` | src/sudoers.rs:22-31 | for every group, a role called `grp-` plus its name loses its sudo rule to the group's, and the new registry is wrong |
| `Counterexamples.CrossedRunIsAdmitted` | src/apply.rs:204-418 | and that run is admissible |
| `Counterexamples.ReorderedGrantsGoStale` | src/plan.rs:238-256 | nested grants declared in another order: nothing is written, and the new registry is wrong |
| `Counterexamples.NarrowedGroupLosesItsGrant` | src/apply.rs:728-779 | a group recorded with a directory and declared with one below it ends without the grant its new record claims |
| `Counterexamples.JoinedGroupLosesItsGrants` | src/apply.rs:1450-1455 | a joined, undeclared group loses its grants while its record stays |
| `Counterexamples.OwnedGroupIsNeverQuiet` | src/plan.rs:522-565 | an owned, undeclared group is torn down again by the next apply |
| `Counterexamples.MovedAccountLosesItsCrew` | src/mutate.rs:163-178 | an account whose own list changes leaves a group that lists it and is in sync, whose record goes on claiming the member |
| `Counterexamples.LostRegistryIsWrong` | src/cli/mod.rs:432-444 | one created account and a lost registry: the old registry is wrong |
| `Paths.AtOrUnderIsComponentPrefix` | src/catalog.rs:373-381 | the textual containment test is exactly the prefix relation on `/`-separated components |
| `Paths.ComponentsAre` | src/catalog.rs:1532-1534 | the components of a path are exactly what stands between its slashes |
| `Constraints.WellFormedSpelled` | src/catalog.rs:391-421 | a constraint is well formed if and only if its enumeration is not empty and its prefixes are absolute directories, at least one |
| `Constraints.AcceptsExactly` | src/catalog.rs:461-537 | the verdict on a value for each kind of constraint, character by character and with its default length |
| `Paths.ByteLengthIs` | src/catalog.rs:461-537 | length limits count bytes: one per character, and one more at each of the three bounds of UTF-8 |
| `Constraints.NormalFormsAgree` | src/catalog.rs:430-537 | constraints with the same normal form give every string the same verdict |
| `Constraints.AcceptedPathIsInsideAPrefix` | src/catalog.rs:461-537 | an accepted path lies in an allowed directory by whole components, never as a textual sibling |
| `Constraints.AcceptedSegmentIsOneComponent` | src/catalog.rs:461-537 | an accepted segment is exactly one path component and does not climb |
| `CatalogRecords.GatesSpelled` | src/catalog.rs:1372-1530 | the gates for commands and rendered paths, on the characters and components of the text |
| `CatalogRecords.GrantGateSpelled` | src/catalog.rs:963-973 | a written grant passes if and only if it is legible and a template, or absolute, never climbing, and with a final slash only under recursion |
| `CatalogRecords.RunasSpelled` | src/catalog.rs:1433-1478 | the grammar of a run-as name |
| `CatalogRecords.ContradictorySpelled` | src/catalog.rs:1185-1245 | a record contradicts itself if and only if it replaces everything and also appends a group or a command |
| `CatalogRecords.ValidatePrimitives` | src/catalog.rs:1185-1245 | accepts exactly records whose override forms, commands, run-as and paths are fit |
| `CatalogRecords.ValidateParams` | src/catalog.rs:1246-1315 | accepts exactly records that constrain the parameters they use, no more and no fewer |
| `CatalogRecords.Validate` | src/catalog.rs:1185-1315 | refuses exactly the records that are not valid |
| `CatalogRecords.ReadLayer` | src/catalog.rs:1938-1954 | reads a layer if and only if every record is valid and no id occurs twice |
| `CatalogRecords.ReadChain` | src/catalog.rs:1702-1710 | reads the chain if and only if every layer is valid |
| `Templates.ExtractPlaceholders` | src/catalog.rs:3310-3325 | the scan finds exactly the holes of the declarative reading, in order |
| `Templates.PrintParse` | src/catalog.rs:3310-3325 | reading a template into text and holes and printing it gives it back |
| `Templates.ReplaceIsStepped` | src/catalog.rs:3330-3332 | everything one replacement does to a partly filled template, hole by hole |
| `Templates.StepIsFillIff` | src/catalog.rs:3330-3332 | one replacement fills exactly its own holes if and only if no other open hole's name ends in `{` and the name |
| `Templates.SequentialIsSimultaneous` | src/catalog.rs:4052-4070 | replacing names one at a time equals filling all holes at once |
| `TemplateClash.SequentialIffNoClash` | src/catalog.rs:4052-4070 | and it does so for all values if and only if no name is replaced before one that ends in `{` followed by it |
| `Templates.BraceFreeNeverClash` | src/catalog.rs:3306-3309 | brace-free names, the documented form, always qualify |
| `Templates.NestedNameBreaks` | src/catalog.rs:3306-3309 | a nested name on which the two readings differ |
| `Templates.NestedNameLeavesHole` | src/catalog.rs:3306-3309 | a nested name that leaves an undeclared placeholder behind |
| `Templates.FilledHasNoHoles` | src/catalog.rs:3964-4071 | a template filled with plain values has no placeholder left |
| `Rendering.RenderTemplate` | src/catalog.rs:3964-4071 | the loops compute the first defect in placeholder order, or the copies |
| `Rendering.DefectFreeIff` | src/catalog.rs:3980-4050 | no defect is found if and only if every placeholder has an accepted value and at most one is a list |
| `Rendering.RenderMeaning` | src/catalog.rs:3964-4071 | rendering succeeds if and only if the values are acceptable; it gives one string, or one per list element in order, each the template with all holes filled at once by accepted values and no placeholder left |
| `Rendering.ValuesNeverBreak` | src/catalog.rs:3350-3392 | no value breaks a template apart: a copy has every blank, control character, comma and shell character exactly as often as the template has it outside its placeholders |
| `Grants.UnionInto` | src/catalog.rs:3221-3250 | the loop computes the by-path union |
| `Grants.UnionSays` | src/catalog.rs:2685-2748 | the union says exactly what its two sides say: path, bits and recursion |
| `Grants.UnionKeeps` | src/catalog.rs:2685-2748 | one entry per path, each with the shape its path and flag imply |
| `Grants.EntryIsUnion` | src/catalog.rs:2685-2748 | an entry is determined by what the list says of its path |
| `Grants.AddNewInto` | src/catalog.rs:3259-3277 | primitives are added once per (value, run-as), in order |
| `Grants.AddNewIsNew` | src/catalog.rs:3259-3277 | what was there stays in front, and whatever is added is new, once |
| `Grants.AddNewKeepsOrder` | src/catalog.rs:3259-3277 | and it stands in the order of its first mention |
| `Leaf.ResolveLeaf` | src/catalog.rs:2550-2675 | the layer loop computes the fold, or reports an unknown id |
| `Leaf.ListsClosedForm` | src/catalog.rs:2611-2639 | groups and commands are the topmost overriding layer's values and every append above it; files come from layers at or above the topmost full replacement |
| `Leaf.SettersClosedForm` | src/catalog.rs:2611-2639 | risk and run-as come from the topmost setter of all layers, limits and constraints only from layers at or above the topmost full replacement |
| `Leaf.LeafClosedForm` | src/catalog.rs:2550-2675 | a leaf resolves if and only if some layer defines it, and then every field is the closed form of the records |
| `Leaf.LeafIsStamped` | src/catalog.rs:2640-2675 | every command of a leaf carries its run-as account, and files are one well-shaped entry per path |
| `Expansion.SubstituteGroups` | src/catalog.rs:3790-3845 | group templates rendered in order, each copy a valid group name, first error wins |
| `Expansion.SubstituteCommands` | src/catalog.rs:3790-3845 | command templates rendered in order, each copy through the command gate, run-as kept |
| `Expansion.SubstituteFiles` | src/catalog.rs:3856-3922 | paths rendered through the path gate, then unioned by path |
| `Expansion.RenderBindings` | src/catalog.rs:3705-3783 | one member parameter map per element of the driving list, or one |
| `Expansion.ExpandBoundMember` | src/catalog.rs:3594-3692 | binding completeness, then both rendering stages |
| `Acceptance.SubstitutedOkIff` | src/catalog.rs:3790-3922 | substitution succeeds if and only if each template is given acceptable values and each copy passes the gate of its kind |
| `Acceptance.ExpandedOkIff` | src/catalog.rs:3594-3692 | a bound member expands if and only if the edge binds exactly the names it constrains, the bindings fan out, and every copy is taken |
| `Facts.SubstitutedGrants` | src/catalog.rs:3790-3922 | substitution grants exactly the copies of what was granted, each passes the gate of its kind, and files stay one well-shaped entry per path |
| `Facts.ExpandedGrants` | src/catalog.rs:3594-3692 | a bound member grants exactly its own facts filled by each rendering of the bindings |
| `Facts.LiteralExpansion` | src/catalog.rs:3094-3161 | a literally bound member is filled by the strings as written, with nothing from the role |
| `Resolver.AggregationFor` | src/catalog.rs:2808-2841 | includes and categories unioned over the layers, repeats dropped |
| `Resolver.MaterializeCategories` | src/catalog.rs:2942-2962 | the members of each category in catalog order, and their union |
| `IncludeGraph.CategorizesExactly` | src/catalog.rs:2942-2962 | the members of a category are exactly the ids some record of some layer puts there |
| `IncludeGraph.MembersExactly` | src/catalog.rs:2808-2984 | an id is flattened into a bundle if and only if a record of the bundle in some layer includes it bare, or names a category that a record of some layer puts it in |
| `IncludeGraph.BindingsExactly` | src/catalog.rs:2808-2841 | an include is bound if and only if a record of the bundle in some layer has it with bindings |
| `Resolver.ResolveInner` | src/catalog.rs:2872-3212 | the recursion terminates on every catalog, computes the resolution, and leaves the visiting stack as it found it |
| `Resolver.ResolvePermission` | src/catalog.rs:2859-2867 | a valid catalog is resolved from an empty stack; success implies a valid catalog |
| `BundleAcceptance.BundleAcceptedIff` | src/catalog.rs:2872-3212 | an id resolves if and only if it is defined, not being expanded, less than 64 deep, and its members resolve, their constraints agree where they share a name, its bound members can be expanded, and it does not call itself contained over one that is not |
| `BundleAcceptance.BundleLimits` | src/catalog.rs:2872-3212 | a bundle's limits are its own, else those of the first flattened member that has any |
| `IncludeGraph.WalksAreSound` | src/catalog.rs:2879-2899 | success means that along every walk of include edges all ids are defined, none repeats or is being expanded, and at most 64 are open |
| `IncludeGraph.PathShrinks` | src/catalog.rs:2872-2899 | an id resolves to the same permission wherever it is reached from |
| `IncludeGraph.ErrorIsGenuine` | src/catalog.rs:2879-2899 | a reported cycle is a closed walk reachable from the root, a depth error comes with 65 ids, an unknown id with a walk to it |
| `IncludeGraph.GraphErrorsAreGenuine` | src/catalog.rs:2872-2899 | from the top: a graph error has a defective walk below the id, and after success no such walk exists |
| `BundleMeaning.ResolutionGrants` | src/catalog.rs:2902-3161 | one level of a resolve: own records, flattened members, literally bound members, nothing else |
| `BundleMeaning.BundleMeansItsMembers` | src/catalog.rs:2872-3212 | a resolved permission grants a group, a (command, run-as) pair or a file fact if and only if its records or its members', transitively, do |
| `BundleMeaning.FilesAreSound` | src/catalog.rs:3221-3250 | one file entry per path in every resolved permission, shaped by path and recursion |
| `BundleMeaning.EntryIsUnionOfContributors` | src/catalog.rs:2677-2718 | an entry's bits are the union and its recursion the disjunction over all transitive contributors |
| `BundleRisk.RiskIsHonest` | src/catalog.rs:3164-3193 | a bundle is labelled escalation-capable if and only if a reachable record is, or a reachable member without members is unlabelled |
| `BundleRisk.ContainedReachesOnlyContained` | src/catalog.rs:3164-3193 | below a contained bundle everything reachable resolves contained, and every member without members says so itself |
| `BundleParams.ConstraintClosure` | src/catalog.rs:1287-1314 | after every successful resolve of a validated catalog with brace-free names, each placeholder left has a constraint |
| `BundleParams.MergeIsSound` | src/catalog.rs:3035-3063 | however deep a flattened member sits, the bundle's merged constraint gives every value the verdict of the member's own |
| `RoleParams.EnforceSingleExpansionList` | src/catalog.rs:3505-3563 | refuses if and only if bindings are in play and two different lists are consumed |
| `RoleParams.ResolveWithParams` | src/catalog.rs:3394-3492 | the bundle's own templates first, then each bound member, or the first error |
| `Acceptance.RoleAcceptedIff` | src/catalog.rs:3394-3492 | a role's parameters are accepted if and only if at most one list is in play where members are bound, and the bundle's own templates and every bound member take them |
| `RoleParams.RoleGetsFilledFacts` | src/catalog.rs:3394-3492 | the role gets exactly the copies of the bundle's own facts and of each bound member's; every one passes its gate; files are one well-shaped entry per path |
| `RoleParams.OwnGuard` | src/catalog.rs:3930-3953 | each own fact is filled with values the bundle's constraints accept |
| `RoleParams.BothGuards` | src/catalog.rs:3594-3692 | each value a binding takes was accepted by the bundle's constraint and each value it hands on by the member's own |
| `RoleParams.FannedOkIff` | src/catalog.rs:3705-3783 | bindings fan out if and only if, for every element of the driving list, each is supplied with acceptable values and renders to one string; then one map per element |
| `RoleParams.BindingsAcceptIff` | src/catalog.rs:3705-3783 | with one list, bindings accept the role's parameters if and only if the list is empty or each parameter is an acceptable scalar, or a list of acceptable scalars or of one-element lists of them |
| `RoleParams.SecondListReportedIff` | src/catalog.rs:3755-3783 | a second list is reported if and only if the first element that cannot be taken fails for its width alone |
| `RoleParams.FanOutIsOneList` | src/catalog.rs:3705-3783 | with one list, a second is reported only for an element that is itself a list of none or several, and such an element never passes |
| `RoleParams.UpfrontCheckSuffices` | src/catalog.rs:3505-3563 | after the upfront check a bound member accepts or refuses value by value, and reports a second list only for a nested list of none or several |
| `RoleParams.MemberMultipliesOnce` | src/catalog.rs:3594-3692 | a bound member's primitives multiply by the length of that one list, never by a product |
| `RoleParams.NestedListIsRefusedDirectly` | src/catalog.rs:3930-3953 | a template that takes the list itself refuses every element that is not a scalar |
| `RoleMeaning.RoleGetsFilledTemplates` | src/catalog.rs:3394-3492 | with brace-free names, everything a role gets is one catalog template filled in a single step, and no placeholder is left |
| `CoverageIndex.BuildIndex` | src/coverage.rs:718-732 | the loop computes the index |
| `CoverageIndex.IndexCovers` | src/coverage.rs:718-732 | merging preserves exactly which paths are covered |
| `CoverageIndex.IndexSays` | src/coverage.rs:718-732 | and exactly what is said of each path, one entry per path |
| `CoverageIndex.ShapesAreDerivedIff` | src/coverage.rs:718-732 | every stored shape is the derived one if and only if no glob path is stated twice with recursion |
| `CoverageIndex.RecursiveCoverIsComponentPrefix` | src/coverage.rs:1096-1107 | under a recursive grant, coverage is the component-prefix relation |
| `CoverageIndex.ConfigGrantCover` | src/coverage.rs:1028-1042 | the loop computes the strongest covering grant |
| `CoverageIndex.CoverIsStrongest` | src/coverage.rs:1028-1065 | a cover is found if and only if something covers, and nothing covering outranks it in enforceability and then write access |
| `CoverageIndex.CoverIsEnforceableIff` | src/coverage.rs:1052-1073 | the chosen grant is enforceable if and only if some covering entry is |
| `CoverageIndex.CoverIsChosen` | src/coverage.rs:1028-1065 | of the covering entries nothing outranks, the first is returned when they may write and the last when they may not; there is exactly one such choice |
| `CoverageIndex.IndexEnforcesIff` | src/coverage.rs:718-732 | the audit calls a path enforced if and only if a raw grant enforces it or a repeated recursive glob covers it |
| `CoverageIndex.RepeatedGlobLooksEnforced` | src/coverage.rs:718-732 | an input where only the repetition makes it look enforced |
| `CoverageIndex.WhichGrants` | src/coverage.rs:1392-1433 | reports exactly the commands and grants that reach the argument |
| `CoverageReport.MatchedCommandSpelled` | src/coverage.rs:1392-1433 | the reverse lookup matches a command if and only if it and the argument begin with the same word |
| `CoverageIndex.ForwardAndReverseAgree` | src/coverage.rs:1028-1042 | the audit finds a grant for a path if and only if the reverse lookup over the same sources reports a file match |
| `CoverageReport.BuildCoveredSet` | src/coverage.rs:515-654 | the covered set of every id that resolves, the roles and the bound groups |
| `CoverageReport.BinaryIsFirstWord` | src/coverage.rs:474-476 | the binary of a command is its first word between blanks |
| `CoverageReport.UnitIsControlled` | src/coverage.rs:672-704 | a command names a unit if and only if its first word is systemctl and its last is another word that is neither option nor verb |
| `CoverageReport.BaseUnitSpelled` | src/coverage.rs:707-711 | the base of a unit is the unit without one final `.service`, if it has one |
| `CoverageReport.ConfigRestsOn` | src/coverage.rs:515-654 | the file grants behind a configuration verdict are the permissions' without placeholders and every role's |
| `CoverageReport.CoveredIff` | src/coverage.rs:975-995 | class by class: an object counts as covered if and only if it is not excluded by design and some permission, role or bound group grants the binary, group, unit or path it stands for |
| `CoverageReport.BucketExactly` | src/coverage.rs:758-1026 | every other verdict, over the raw grants: inventory, excluded by design, dropped as low priority, limited by the backend |
| `CoverageReport.ParentSpelled` | src/coverage.rs:1254-1270 | a path is its directory, a slash and its last component |
| `CoverageReport.CoverageScoped` | src/coverage.rs:758-953 | verdicts, inventory, anomalies and class totals from one pass |
| `CoverageReport.CoverageIsMonotone` | src/coverage.rs:606-641 | adding roles or bound groups never makes a covered object uncovered |
| `CoverageReport.EveryObjectIsAccountedFor` | src/coverage.rs:758-953 | every object is in the inventory, dropped, excluded, limited, covered or a gap, exactly one of them |
| `CoverageReport.TotalsMatchTheList` | src/coverage.rs:758-953 | each class's figures are the sizes of the matching parts of the listed verdicts |
| `CoverageReport.OverallIsAPercentage` | src/coverage.rs:964-972 | the overall figure lies in [0, 100] and is 100 if and only if nothing counted is a gap |
| `Json.JsonStr` | src/cli/render.rs:55-77 | the loop writes a quote, the escaped characters, a quote |
| `Json.JsonRoundTrip` | src/cli/render.rs:55-77 | a reader for section 7 of RFC 8259 maps the output back to the string, for every string |
| `Json.OutputIsClean` | src/cli/render.rs:55-77 | no raw control character, no literal U+2028 or U+2029, no quote that could end the string early |

## Left out

- Home directories: `userdel -r` removes a home tree that no restore brings back; the model tracks the four auth-database files with their accounts, groups and memberships, the fragments and the ACL entries.
- The private group `useradd` may create, primary groups, the password lock and the comment field.
- File modes, ownership, timestamps, symbolic links and the restored file's permissions: rollback is stated over contents and presence.
- The set of existing paths is a value that no run changes: files that come, go or inherit a default ACL between runs, the ACL mask and the file-or-directory reading of `X` are not modelled, and paths are not resolved through symbolic links.
- Trust, anti-rollback versions, role slices, the inspector's readings and the session registry enter a run as values; how they are read and parsed is not modelled.
- Sudoers text: a fragment is the rule it states; escaping, `visudo` and run-spec grouping are not modelled.
- Registry order: the sorted map of records is a sequence with unique names.
- Ledger.RunKeepsLedgerIff: assumes unique targets with UIDs in a reserved band, as a valid declaration gives; fragments are compared up to command order.
- GroupLedger.GroupRecordIsTrueIff: speaks of groups the run knows (declared or recorded before); a group freshly created because an account joins it has a record without grants.
- Provenance of resolved primitives, warnings, log lines, unused-parameter warnings, suggestions and coverage notes.
- The OS target and the layer names: a catalog is its chain of layers, read once; directory walking, namespaces on disk and TOML are not modelled.
- Numbers and flags as parameter values are the text they render to.
- Iteration order of constraint maps: which of several faulty parameters an error names is not modelled.
- BundleParams.ConstraintClosure: assumes brace-free placeholder names; `Templates.NestedNameLeavesHole` shows why.
- Percentages are exact rationals; rounding is not modelled.
- Live surface scanning in `src/coverage.rs`, the remaining command-line front end, linting, l10n and schemas.
