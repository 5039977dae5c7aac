/** The anti-lockout gate (src/lockout.rs). */
module Lockout {
  import opened Outcomes
  import opened Records
  import opened Plan

  datatype Context = Context(rescuePresent: bool, riskAcknowledged: bool)

  const NON_LOGIN_SHELLS: set<string> :=
    {"/usr/sbin/nologin", "/sbin/nologin", "/bin/false", "/usr/bin/false"}

  predicate LoginCapable(shell: string) {
    shell != "" && shell !in NON_LOGIN_SHELLS
  }

  predicate LeavesLogin(a: Action) {
    !a.Delete? && LoginCapable(a.account.shell)
  }

  function CountActions(actions: seq<Action>): nat {
    if actions == [] then 0
    else CountActions(actions[1..]) + if LeavesLogin(actions[0]) then 1 else 0
  }

  function CountShells(shells: seq<string>): nat {
    if shells == [] then 0
    else CountShells(shells[1..]) + if LoginCapable(shells[0]) then 1 else 0
  }

  function Surviving(actions: seq<Action>, untouched: seq<string>): nat {
    CountActions(actions) + CountShells(untouched)
  }

  /** Refuse a plan over accounts that would leave no way in. */
  predicate Gate(actions: seq<Action>, ctx: Context, untouched: seq<string>) {
    || actions == []
    || ctx.rescuePresent
    || Surviving(actions, untouched) > 0
    || ctx.riskAcknowledged
  }

  lemma {:induction false} ActionsCounted(actions: seq<Action>)
    ensures CountActions(actions) > 0 <==> exists a :: a in actions && LeavesLogin(a)
  {
    if actions != [] {
      ActionsCounted(actions[1..]);
      assert actions == [actions[0]] + actions[1..];
      if a :| a in actions && LeavesLogin(a) {
        assert a == actions[0] || a in actions[1..];
      }
    }
  }

  lemma {:induction false} ShellsCounted(shells: seq<string>)
    ensures CountShells(shells) > 0 <==> exists s :: s in shells && LoginCapable(s)
  {
    if shells != [] {
      ShellsCounted(shells[1..]);
      assert shells == [shells[0]] + shells[1..];
      if s :| s in shells && LoginCapable(s) {
        assert s == shells[0] || s in shells[1..];
      }
    }
  }
}
