/**
 Pointwise readings of what the phases do: the effect of a whole plan on one
 account, one fragment or one ACL entry.
 */
module Effects {
  import opened Outcomes
  import opened Records
  import opened Plan
  import opened DiskModel
  import opened ProvisionerModel
  import opened FileAccess
  import opened Paths
  import opened ApplyPlan
  import opened Transaction

  // ----- accounts -----

  /** An account no action names is left alone. */
  lemma {:induction false} AccountUntouched(accounts: map<string, PwEntry>, managed: seq<ManagedAccount>, actions: seq<Action>, n: string)
    requires AccountsAfter(accounts, managed, actions).Some? && !Touches(actions, n)
    ensures var r := AccountsAfter(accounts, managed, actions).value;
            (n in r <==> n in accounts) && (n in r ==> r[n] == accounts[n])
  {
    if actions != [] {
      var k := |actions| - 1;
      assert forall i :: 0 <= i < k ==> actions[..k][i] == actions[i];
      assert actions[k].Name() != n;
      AccountUntouched(accounts, managed, actions[..k], n);
    }
  }

  /** The one action on a name decides what becomes of it. */
  lemma {:induction false} AccountTouched(accounts: map<string, PwEntry>, managed: seq<ManagedAccount>, actions: seq<Action>, a: Action)
    requires AccountsAfter(accounts, managed, actions).Some? && DistinctNames(actions) && a in actions
    ensures var r := AccountsAfter(accounts, managed, actions).value;
            var n := a.Name();
            match a
            case Create(t) => n !in accounts && n in r && r[n] == PwEntry(t.uid, t.shell)
            case Update(t) =>
              && FindAccount(managed, n).Some? && FindAccount(managed, n).value.uid == t.uid
              && (n in accounts ==> n in r && r[n] == accounts[n].(shell :=
                    if FindAccount(managed, n).value.shell == t.shell then accounts[n].shell else t.shell))
            case Delete(_) => n !in r
  {
    var k := |actions| - 1;
    var init := actions[..k];
    assert forall i :: 0 <= i < k ==> init[i] == actions[i];
    if a == actions[k] {
      assert !Touches(init, a.Name());
      AccountUntouched(accounts, managed, init, a.Name());
    } else {
      AccountTouched(accounts, managed, init, a);
      var i :| 0 <= i < k && actions[i] == a;
    }
  }

  /** Until something is deleted, a UID in use stays in use. */
  lemma {:induction false} UidsPersist(accounts: map<string, PwEntry>, managed: seq<ManagedAccount>, actions: seq<Action>, n: string)
    requires AccountsAfter(accounts, managed, actions).Some? && n in accounts
    requires forall i :: 0 <= i < |actions| ==> !actions[i].Delete?
    ensures n in AccountsAfter(accounts, managed, actions).value
    ensures AccountsAfter(accounts, managed, actions).value[n].uid == accounts[n].uid
  {
    if actions != [] {
      UidsPersist(accounts, managed, actions[..|actions| - 1], n);
    }
  }

  lemma {:induction false} PrefixSucceeds(accounts: map<string, PwEntry>, managed: seq<ManagedAccount>, actions: seq<Action>, i: nat)
    requires AccountsAfter(accounts, managed, actions).Some? && i <= |actions|
    ensures AccountsAfter(accounts, managed, actions[..i]).Some?
  {
    if i == |actions| {
      assert actions[..i] == actions;
    } else {
      PrefixSucceeds(accounts, managed, actions[..|actions| - 1], i);
      assert actions[..|actions| - 1][..i] == actions[..i];
    }
  }

  /** A created account's UID was nobody's: creations come before deletions. */
  lemma CreatedUidIsNew(accounts: map<string, PwEntry>, managed: seq<ManagedAccount>, actions: seq<Action>, i: nat, n: string)
    requires AccountsAfter(accounts, managed, actions).Some? && n in accounts
    requires i < |actions| && actions[i].Create?
    requires forall j :: 0 <= j < i ==> !actions[j].Delete?
    ensures accounts[n].uid != actions[i].account.uid
  {
    PrefixSucceeds(accounts, managed, actions, i + 1);
    assert actions[..i + 1][..i] == actions[..i];
    UidsPersist(accounts, managed, actions[..i], n);
  }

  // ----- fragments -----

  lemma {:induction false} FragmentUntouched(fragments: Tree, dir: string, actions: seq<Action>, p: Path)
    requires forall i :: 0 <= i < |actions| ==> AccountFragment(dir, actions[i].Name()) != p
    ensures SameAt(fragments, FragmentsAfter(fragments, dir, actions), p)
  {
    if actions != [] {
      FragmentUntouched(fragments, dir, actions[..|actions| - 1], p);
    }
  }

  lemma {:induction false} FragmentTouched(fragments: Tree, dir: string, actions: seq<Action>, a: Action)
    requires DistinctNames(actions) && a in actions
    ensures SameAt(Install(fragments, AccountFragment(dir, a.Name()), RuleFor(a)),
                   FragmentsAfter(fragments, dir, actions), AccountFragment(dir, a.Name()))
  {
    var k := |actions| - 1;
    var init := actions[..k];
    assert forall i :: 0 <= i < k ==> init[i] == actions[i];
    if a != actions[k] {
      FragmentTouched(fragments, dir, init, a);
      var i :| 0 <= i < k && actions[i] == a;
      AccountFragmentsDiffer(dir, actions[k].Name(), a.Name());
    }
  }

  lemma {:induction false} FragmentOutsideGroups(fragments: Tree, dir: string, groups: seq<ResolvedGroup>, actions: seq<GroupAction>, p: Path)
    requires forall i :: 0 <= i < |actions| ==> GroupFragment(dir, actions[i].name) != p
    ensures SameAt(fragments, GroupFragmentsAfter(fragments, dir, groups, actions), p)
  {
    if actions != [] {
      FragmentOutsideGroups(fragments, dir, groups, actions[..|actions| - 1], p);
    }
  }

  /** Actions that agree on a group's rule leave that rule in its fragment. */
  lemma {:induction false} FragmentOfGroup(fragments: Tree, dir: string, groups: seq<ResolvedGroup>, actions: seq<GroupAction>, a: GroupAction)
    requires a in actions
    requires forall b :: b in actions && b.name == a.name ==> GroupRuleFor(b, groups) == GroupRuleFor(a, groups)
    ensures SameAt(Install(fragments, GroupFragment(dir, a.name), GroupRuleFor(a, groups)),
                   GroupFragmentsAfter(fragments, dir, groups, actions), GroupFragment(dir, a.name))
  {
    var k := |actions| - 1;
    assert actions == actions[..k] + [actions[k]];
    if actions[k].name != a.name {
      GroupFragmentsDiffer(dir, actions[k].name, a.name);
      FragmentOfGroup(fragments, dir, groups, actions[..k], a);
    }
  }

  // ----- entries -----

  function EntryOf(acl: Acl, k: AclKey): Option<AclPerm> {
    if k in acl.entries then Some(acl.entries[k]) else None
  }

  /** Some grant of the list is on the path or above it. */
  predicate Reaches(grants: seq<Grant>, path: string) {
    exists i :: 0 <= i < |grants| && AtOrUnder(grants[i].path, path)
  }

  /** What a grant list, set in order, leaves on a path: the last grant that reaches it. */
  function GrantedPerm(grants: seq<Grant>, path: string): (r: Option<AclPerm>)
    ensures r.Some? <==> Reaches(grants, path)
  {
    if grants == [] then None
    else
      var n := |grants| - 1;
      assert forall i :: 0 <= i < n ==> grants[..n][i] == grants[i];
      if AtOrUnder(grants[n].path, path) then Some(PermFor(grants[n].access)) else GrantedPerm(grants[..n], path)
  }

  /** The entries a grant list asks for: nothing is written where nothing exists. */
  function Asked(tree: seq<string>, grants: seq<Grant>, path: string): Option<AclPerm> {
    if path in tree then GrantedPerm(grants, path) else None
  }

  lemma {:induction false} SetGrantsAt(acl: Acl, who: Holder, grants: seq<Grant>, k: AclKey)
    ensures EntryOf(SetGrants(acl, who, grants), k) ==
            if k.holder == who && Asked(acl.tree, grants, k.path).Some? then Asked(acl.tree, grants, k.path) else EntryOf(acl, k)
  {
    hide AtOrUnder, Reaches, SetPaths;
    if grants != [] {
      var rest := SetGrants(acl, who, grants[..|grants| - 1]);
      SetGrantsAt(acl, who, grants[..|grants| - 1], k);
      SetPathsAt(rest.entries, who, grants[|grants| - 1], rest.tree, k);
    }
  }

  lemma {:induction false} DropGrantsAt(acl: Acl, who: Holder, grants: seq<Grant>, k: AclKey)
    ensures EntryOf(DropGrants(acl, who, grants), k) ==
            if k.holder == who && Reaches(grants, k.path) then None else EntryOf(acl, k)
  {
    hide AtOrUnder;
    if grants != [] {
      var n := |grants| - 1;
      DropGrantsAt(acl, who, grants[..n], k);
      assert forall i :: 0 <= i < n ==> grants[..n][i] == grants[i];
      if Reaches(grants, k.path) && !AtOrUnder(grants[n].path, k.path) {
        var i :| 0 <= i < |grants| && AtOrUnder(grants[i].path, k.path);
        assert AtOrUnder(grants[..n][i].path, k.path);
      }
    }
  }

  /** Where nothing kept reaches, the revoked grants reach exactly as far as the recorded ones did. */
  lemma DroppedReaches(recorded: seq<Grant>, keep: seq<Grant>, path: string)
    requires !Reaches(keep, path)
    ensures Reaches(Dropped(recorded, keep), path) <==> Reaches(recorded, path)
  {
    hide AtOrUnder;
    if Reaches(recorded, path) {
      var i :| 0 <= i < |recorded| && AtOrUnder(recorded[i].path, path);
      DroppedContains(recorded, keep, recorded[i]);
      var j :| 0 <= j < |Dropped(recorded, keep)| && Dropped(recorded, keep)[j] == recorded[i];
    }
    if Reaches(Dropped(recorded, keep), path) {
      var i :| 0 <= i < |Dropped(recorded, keep)| && AtOrUnder(Dropped(recorded, keep)[i].path, path);
      DroppedContains(recorded, keep, Dropped(recorded, keep)[i]);
      var j :| 0 <= j < |recorded| && recorded[j] == Dropped(recorded, keep)[i];
    }
  }

  /** A create or update writes entries of this holder. */
  predicate Writes(a: Action, accounts: map<string, PwEntry>, who: Holder) {
    !a.Delete? && a.account.name in accounts && ByUid(accounts[a.account.name].uid) == who
  }

  function Rewritten(acl: Acl, managed: seq<ManagedAccount>, t: ResolvedAccount, k: AclKey): Option<AclPerm> {
    if Asked(acl.tree, t.fileGrants, k.path).Some? then Asked(acl.tree, t.fileGrants, k.path)
    else if Reaches(RemovedGrants(t.name, t.fileGrants, managed), k.path) then None
    else EntryOf(acl, k)
  }

  lemma AclStepAt(acl: Acl, accounts: map<string, PwEntry>, managed: seq<ManagedAccount>, a: Action, k: AclKey)
    requires AclStep(acl, accounts, managed, a).Some?
    ensures EntryOf(AclStep(acl, accounts, managed, a).value, k) ==
            if Writes(a, accounts, k.holder) then Rewritten(acl, managed, a.account, k) else EntryOf(acl, k)
  {
    if !a.Delete? && a.account.name in accounts {
      var t := a.account;
      var who := ByUid(accounts[t.name].uid);
      var removed := RemovedGrants(t.name, t.fileGrants, managed);
      DropGrantsAt(acl, who, removed, k);
      SetGrantsAt(DropGrants(acl, who, removed), who, t.fileGrants, k);
    }
  }

  lemma {:induction false} EntryUntouched(acl: Acl, accounts: map<string, PwEntry>, managed: seq<ManagedAccount>, actions: seq<Action>, k: AclKey)
    requires AclAfter(acl, accounts, managed, actions).Some?
    requires forall i :: 0 <= i < |actions| ==> !Writes(actions[i], accounts, k.holder)
    ensures EntryOf(AclAfter(acl, accounts, managed, actions).value, k) == EntryOf(acl, k)
  {
    if actions != [] {
      var n := |actions| - 1;
      EntryUntouched(acl, accounts, managed, actions[..n], k);
      AclStepAt(AclAfter(acl, accounts, managed, actions[..n]).value, accounts, managed, actions[n], k);
    }
  }

  lemma {:induction false} EntryTouched(acl: Acl, accounts: map<string, PwEntry>, managed: seq<ManagedAccount>, actions: seq<Action>, i: nat, k: AclKey)
    requires AclAfter(acl, accounts, managed, actions).Some?
    requires i < |actions| && Writes(actions[i], accounts, k.holder)
    requires forall j :: 0 <= j < |actions| && j != i ==> !Writes(actions[j], accounts, k.holder)
    ensures EntryOf(AclAfter(acl, accounts, managed, actions).value, k) == Rewritten(acl, managed, actions[i].account, k)
  {
    var n := |actions| - 1;
    var init := actions[..n];
    AclStepAt(AclAfter(acl, accounts, managed, init).value, accounts, managed, actions[n], k);
    if i == n {
      EntryUntouched(acl, accounts, managed, init, k);
    } else {
      EntryTouched(acl, accounts, managed, init, i, k);
    }
  }

  /** A delete strips entries of this holder. */
  predicate Strips(a: Action, managed: seq<ManagedAccount>, who: Holder) {
    a.Delete? && FindAccount(managed, a.name).Some? && ByUid(FindAccount(managed, a.name).value.uid) == who
  }

  lemma {:induction false} EntryNotStripped(acl: Acl, managed: seq<ManagedAccount>, actions: seq<Action>, k: AclKey)
    requires forall i :: 0 <= i < |actions| ==> !Strips(actions[i], managed, k.holder)
    ensures EntryOf(AclAfterDeletes(acl, managed, actions), k) == EntryOf(acl, k)
  {
    if actions != [] {
      var n := |actions| - 1;
      EntryNotStripped(acl, managed, actions[..n], k);
      var a := actions[n];
      if a.Delete? && FindAccount(managed, a.name).Some? {
        DropGrantsAt(AclAfterDeletes(acl, managed, actions[..n]), ByUid(FindAccount(managed, a.name).value.uid),
                     RemovedGrants(a.name, [], managed), k);
      }
    }
  }

  /** Deleting never adds an entry, and removes every recorded one. */
  lemma {:induction false} EntryStripped(acl: Acl, managed: seq<ManagedAccount>, actions: seq<Action>, i: nat, k: AclKey)
    requires i < |actions| && Strips(actions[i], managed, k.holder)
    requires Reaches(RemovedGrants(actions[i].name, [], managed), k.path) || EntryOf(acl, k).None?
    ensures EntryOf(AclAfterDeletes(acl, managed, actions), k) == None
  {
    var n := |actions| - 1;
    var init := actions[..n];
    var a := actions[n];
    var mid := AclAfterDeletes(acl, managed, init);
    if a.Delete? && FindAccount(managed, a.name).Some? {
      DropGrantsAt(mid, ByUid(FindAccount(managed, a.name).value.uid), RemovedGrants(a.name, [], managed), k);
    }
    if i < n {
      EntryStripped(acl, managed, init, i, k);
    } else if EntryOf(acl, k).None? {
      DeletesOnlyRemove(acl, managed, init, k);
    }
  }

  lemma {:induction false} DeletesOnlyRemove(acl: Acl, managed: seq<ManagedAccount>, actions: seq<Action>, k: AclKey)
    requires EntryOf(acl, k).None?
    ensures EntryOf(AclAfterDeletes(acl, managed, actions), k).None?
  {
    if actions != [] {
      var n := |actions| - 1;
      DeletesOnlyRemove(acl, managed, actions[..n], k);
      var a := actions[n];
      if a.Delete? && FindAccount(managed, a.name).Some? {
        DropGrantsAt(AclAfterDeletes(acl, managed, actions[..n]), ByUid(FindAccount(managed, a.name).value.uid),
                     RemovedGrants(a.name, [], managed), k);
      }
    }
  }

  /** The group phases write no user entry. */
  lemma {:induction false} UserEntryOutsideGroups(acl: Acl, groups: seq<ResolvedGroup>, managed: seq<ManagedGroup>, actions: seq<GroupAction>, k: AclKey)
    requires k.holder.ByUid?
    ensures EntryOf(GroupAclAfter(acl, groups, managed, actions), k) == EntryOf(acl, k)
  {
    if actions != [] {
      var n := |actions| - 1;
      var a := actions[n];
      UserEntryOutsideGroups(acl, groups, managed, actions[..n], k);
      var mid := GroupAclAfter(acl, groups, managed, actions[..n]);
      var keep := if TearsDown(a) then [] else KeepOf(groups, a.name);
      SetGrantsAt(mid, ByGroup(a.name), keep, k);
      DropGrantsAt(SetGrants(mid, ByGroup(a.name), keep), ByGroup(a.name), RemovedGroupGrants(a.name, keep, managed), k);
    }
  }
}
