/**
 Exactly when replacing placeholders one at a time equals filling them at once,
 over all values: the converse of `Templates.SequentialIsSimultaneous`.
 */
module TemplateClash {
  import opened Paths
  import opened Templates

  /** The names in replacement order, each with the same long value. */
  function Valued(names: seq<string>, value: string): seq<Sub> {
    seq(|names|, i requires 0 <= i < |names| => Sub(names[i], value))
  }

  function Long(n: nat): (v: string)
    ensures |v| == n && PlainText(v)
  {
    seq(n, i => 'x')
  }

  // ----- templates whose broken holes have become text -----

  /** No `{` in the text has a `}` within reach, the reach ending inside the text. */
  predicate Inert(t: string, reach: nat) {
    forall i :: 0 <= i < |t| && t[i] == '{' ==> i + reach < |t| && forall j :: i < j <= i + reach ==> t[j] != '}'
  }

  predicate InertEnd(t: string, reach: nat) {
    forall i, j :: 0 <= i < j < |t| && t[i] == '{' && j <= i + reach ==> t[j] != '}'
  }

  predicate Loose(ps: Pieces, reach: nat) {
    match ps
    case End(t) => InertEnd(t, reach)
    case Next(t, n, r) => Inert(t, reach) && '}' !in n && Loose(r, reach)
  }

  function Show(ps: Pieces): string { Print(ps, map[]) }

  /** What is left of a hole in front of the value, when its name ends in the replaced one. */
  function Stub(hole: string, name: string): string
    requires EndsWith("{" + hole, "{" + name)
  {
    ("{" + hole)[..|hole| - |name|]
  }

  predicate Hit(hole: string, name: string) { hole != "" && EndsWith("{" + hole, "{" + name) }

  function Step(ps: Pieces, name: string, value: string): Pieces {
    match ps
    case End(t) => ps
    case Next(t, n, r) =>
      if Hit(n, name) then Lead(t + Stub(n, name) + value, Step(r, name, value)) else Next(t, n, Step(r, name, value))
  }

  lemma LeadShows(t: string, ps: Pieces)
    ensures Show(Lead(t, ps)) == t + Show(ps)
  {
    if ps.Next? { assert (t + ps.text) + (Braced(ps.name) + Show(ps.rest)) == t + (ps.text + (Braced(ps.name) + Show(ps.rest))); }
  }

  lemma {:induction false} ReplaceSkipsInert(t: string, rest: string, name: string, value: string, reach: nat)
    requires Inert(t, reach) && |name| < reach
    ensures Replace(t + rest, Braced(name), value) == t + Replace(rest, Braced(name), value)
    decreases |t|
  {
    if t == "" {
      assert t + rest == rest;
    } else {
      var s, p := t + rest, Braced(name);
      assert !(p <= s) by {
        if t[0] == '{' { assert s[|name| + 1] == t[|name| + 1]; }
        assert p[0] == '{' && p[|name| + 1] == '}';
      }
      assert s[0] == t[0] && s[1..] == t[1..] + rest;
      assert Inert(t[1..], reach) by {
        forall i | 0 <= i < |t[1..]| && t[1..][i] == '{'
          ensures i + reach < |t[1..]| && forall j :: i < j <= i + reach ==> t[1..][j] != '}'
        {
          assert t[i + 1] == '{';
          assert forall j :: i < j <= i + reach ==> t[1..][j] == t[j + 1];
        }
      }
      ReplaceSkipsInert(t[1..], rest, name, value, reach);
    }
  }

  lemma {:induction false} ReplaceInertEnd(t: string, name: string, value: string, reach: nat)
    requires InertEnd(t, reach) && |name| < reach
    ensures Replace(t, Braced(name), value) == t
    decreases |t|
  {
    if t != "" {
      var p := Braced(name);
      assert !(p <= t) by { assert p[0] == '{' && p[|name| + 1] == '}'; }
      assert InertEnd(t[1..], reach) by {
        forall i, j | 0 <= i < j < |t[1..]| && t[1..][i] == '{' && j <= i + reach ensures t[1..][j] != '}' {
          assert t[i + 1] == '{' && t[j + 1] == t[1..][j];
        }
      }
      ReplaceInertEnd(t[1..], name, value, reach);
    }
  }

  lemma {:induction false} ReplaceIsStep(ps: Pieces, name: string, value: string, reach: nat)
    requires Loose(ps, reach) && name != "" && '}' !in name && |name| < reach
    ensures Replace(Show(ps), Braced(name), value) == Show(Step(ps, name, value))
  {
    hide Replace, Inert, InertEnd;
    match ps
    case End(t) => ReplaceInertEnd(t, name, value, reach);
    case Next(t, n, r) =>
      ReplaceIsStep(r, name, value, reach);
      var rest := Show(r);
      ReplaceSkipsInert(t, Braced(n) + rest, name, value, reach);
      ReplaceToClose("{" + n, rest, name, value);
      assert Braced(n) + rest == ("{" + n) + ("}" + rest);
      assert Replace(Show(ps), Braced(name), value)
          == t + ((if EndsWith("{" + n, "{" + name) then ("{" + n)[..|n| - |name|] + value else ("{" + n) + "}") + Replace(rest, Braced(name), value));
      if Hit(n, name) {
        LeadShows(t + Stub(n, name) + value, Step(r, name, value));
        assert t + ((Stub(n, name) + value) + Show(Step(r, name, value))) == (t + Stub(n, name) + value) + Show(Step(r, name, value));
      } else {
        EmptyIsNoHit(n, name);
        assert ("{" + n) + "}" == Braced(n);
      }
  }

  lemma EmptyIsNoHit(n: string, name: string)
    requires name != "" && !Hit(n, name)
    ensures !EndsWith("{" + n, "{" + name)
  {
  }

  lemma InertGrows(t: string, stub: string, value: string, reach: nat)
    requires Inert(t, reach) && '}' !in stub && PlainText(value) && |value| > reach
    ensures Inert(t + stub + value, reach)
  {
    var s := t + stub + value;
    assert forall k :: |t| + |stub| <= k < |s| ==> s[k] == value[k - |t| - |stub|];
    forall i | 0 <= i < |s| && s[i] == '{'
      ensures i + reach < |s| && forall j :: i < j <= i + reach ==> s[j] != '}'
    {
      if i < |t| {
        assert t[i] == '{';
        assert forall j :: i < j <= i + reach ==> s[j] == t[j];
      } else {
        assert i < |t| + |stub|;
        forall j | i < j <= i + reach ensures s[j] != '}' {
          if j < |t| + |stub| { assert s[j] == stub[j - |t|]; } else { assert s[j] == value[j - |t| - |stub|]; }
        }
      }
    }
  }

  lemma LeadIsLoose(t: string, ps: Pieces, reach: nat)
    requires Inert(t, reach) && Loose(ps, reach)
    ensures Loose(Lead(t, ps), reach)
  {
    match ps
    case End(x) =>
      var s := t + x;
      forall i, j | 0 <= i < j < |s| && s[i] == '{' && j <= i + reach ensures s[j] != '}' {
        if i < |t| { assert t[i] == '{' && s[j] == t[j]; } else { assert s[i] == x[i - |t|] && s[j] == x[j - |t|]; }
      }
    case Next(x, _, _) =>
      var s := t + x;
      forall i | 0 <= i < |s| && s[i] == '{'
        ensures i + reach < |s| && forall j :: i < j <= i + reach ==> s[j] != '}'
      {
        if i < |t| {
          assert t[i] == '{';
          assert forall j :: i < j <= i + reach ==> s[j] == t[j];
        } else {
          assert x[i - |t|] == '{';
          assert forall j :: i < j <= i + reach ==> s[j] == x[j - |t|];
        }
      }
  }

  lemma {:induction false} StepIsLoose(ps: Pieces, name: string, value: string, reach: nat)
    requires Loose(ps, reach) && PlainText(value) && |value| > reach
    ensures Loose(Step(ps, name, value), reach)
  {
    hide Inert, InertEnd;
    if ps.Next? {
      StepIsLoose(ps.rest, name, value, reach);
      if Hit(ps.name, name) {
        assert '}' !in Stub(ps.name, name);
        InertGrows(ps.text, Stub(ps.name, name), value, reach);
        LeadIsLoose(ps.text + Stub(ps.name, name) + value, Step(ps.rest, name, value), reach);
      }
    }
  }

  // ----- counting opening braces outside the open holes -----

  function TextOpens(ps: Pieces): nat {
    match ps
    case End(t) => Opens(t)
    case Next(t, n, r) => Opens(t) + (if n == "" then 1 else 0) + TextOpens(r)
  }

  lemma LeadOpens(t: string, ps: Pieces)
    ensures TextOpens(Lead(t, ps)) == Opens(t) + TextOpens(ps)
  {
    match ps
    case End(x) => OpensAppend(t, x);
    case Next(x, _, _) => OpensAppend(t, x);
  }

  lemma {:induction false} StepOpens(ps: Pieces, name: string, value: string)
    requires PlainText(value) && name != ""
    ensures TextOpens(Step(ps, name, value)) >= TextOpens(ps)
    ensures (exists m :: m in HoleNames(ps) && EndsWith(m, "{" + name)) ==> TextOpens(Step(ps, name, value)) > TextOpens(ps)
    ensures forall m :: m in HoleNames(Step(ps, name, value)) <==> m in HoleNames(ps) && !Hit(m, name)
  {
    hide Opens;
    if ps.Next? {
      StepOpens(ps.rest, name, value);
      if Hit(ps.name, name) {
        var stub := Stub(ps.name, name);
        LeadOpens(ps.text + stub + value, Step(ps.rest, name, value));
        OpensAppend(ps.text + stub, value);
        OpensAppend(ps.text, stub);
        SuffixOfHole(ps.name, name);
        if EndsWith(ps.name, "{" + name) { StubOpens(ps.name, name); }
      } else {
        SuffixOfHole(ps.name, name);
      }
    }
  }

  lemma StubOpens(hole: string, name: string)
    requires EndsWith(hole, "{" + name) && EndsWith("{" + hole, "{" + name)
    ensures Opens(Stub(hole, name)) > 0
  {
    assert Stub(hole, name)[0] == '{';
  }

  /** The pieces after replacing the names one by one. */
  function State(template: string, subs: seq<Sub>): Pieces
    decreases |subs|
  {
    if subs == [] then Parse(template)
    else Step(State(template, subs[..|subs| - 1]), subs[|subs| - 1].name, subs[|subs| - 1].value)
  }

  predicate Sized(subs: seq<Sub>, reach: nat) {
    forall i :: 0 <= i < |subs| ==>
      subs[i].name != "" && '}' !in subs[i].name && |subs[i].name| < reach && PlainText(subs[i].value) && |subs[i].value| > reach
  }

  lemma {:induction false} TidyIsLoose(ps: Pieces, reach: nat)
    requires Tidy(ps)
    ensures Loose(ps, reach)
  {
    if ps.Next? { TidyIsLoose(ps.rest, reach); }
  }

  lemma {:induction false} StateShows(template: string, subs: seq<Sub>, reach: nat)
    requires Sized(subs, reach)
    ensures Loose(State(template, subs), reach) && Show(State(template, subs)) == SubstituteAll(template, subs)
    decreases |subs|
  {
    hide Step, Parse;
    if subs == [] {
      ParseIsTidy(template);
      TidyIsLoose(Parse(template), reach);
      PrintParse(template);
    } else {
      var n := |subs| - 1;
      StateShows(template, subs[..n], reach);
      ReplaceIsStep(State(template, subs[..n]), subs[n].name, subs[n].value, reach);
      StepIsLoose(State(template, subs[..n]), subs[n].name, subs[n].value, reach);
    }
  }

  /** Until the first clash exactly the unreplaced holes are open; from a clash on, a brace too many stands in the text. */
  lemma {:induction false} StateCounts(template: string, subs: seq<Sub>, reach: nat)
    requires Sized(subs, reach)
    ensures forall m :: m in HoleNames(State(template, subs)) ==> m in HoleNames(Parse(template)) && m !in EnvOf(subs)
    ensures NoClash(template, subs) ==>
              forall m :: m in HoleNames(Parse(template)) && m !in EnvOf(subs) ==> m in HoleNames(State(template, subs))
    ensures TextOpens(State(template, subs)) >= TextOpens(Parse(template))
    ensures !NoClash(template, subs) ==> TextOpens(State(template, subs)) > TextOpens(Parse(template))
    decreases |subs|
  {
    hide Step, Parse, TextOpens, EnvOf;
    if subs == [] {
      EmptyEnv();
    } else {
      var n := |subs| - 1;
      var before, name := subs[..n], subs[n].name;
      StateCounts(template, before, reach);
      StepOpens(State(template, before), name, subs[n].value);
      EnvGrows(subs);
      ClashGrows(template, subs);
      forall m ensures Hit(m, name) ==> m == name || EndsWith(m, "{" + name) { SuffixOfHole(m, name); }
      assert Hit(name, name) by { SuffixOfHole(name, name); }
    }
  }

  lemma EmptyEnv()
    ensures EnvOf([]) == map[]
  {
  }

  lemma EnvGrows(subs: seq<Sub>)
    requires subs != []
    ensures forall m :: m in EnvOf(subs) <==> m in EnvOf(subs[..|subs| - 1]) || m == subs[|subs| - 1].name
  {
  }

  lemma ClashGrows(template: string, subs: seq<Sub>)
    requires subs != []
    ensures var n := |subs| - 1;
            NoClash(template, subs) <==> NoClash(template, subs[..n]) && !Clashes(Parse(template), EnvOf(subs[..n]), subs[n].name)
  {
    hide Clashes, Parse;
    var n := |subs| - 1;
    assert forall i :: 0 <= i < n ==> subs[..n][..i] == subs[..i] && subs[..n][i] == subs[i];
  }

  lemma {:induction false} ClosedOpens(ps: Pieces)
    requires HoleNames(ps) == []
    ensures Opens(Show(ps)) == TextOpens(ps)
  {
    if ps.Next? {
      ClosedOpens(ps.rest);
      OpensAppend(ps.text, Braced("") + Show(ps.rest));
      OpensAppend(Braced(""), Show(ps.rest));
      OpensAppend("{", "}");
    }
  }

  lemma {:induction false} FilledOpens(ps: Pieces, env: map<string, string>)
    requires Plain(env) && forall m :: m in HoleNames(ps) ==> m in env
    ensures Opens(Print(ps, env)) == TextOpens(ps)
  {
    if ps.Next? {
      assert forall m :: m in HoleNames(ps.rest) ==> m in HoleNames(ps);
      FilledOpens(ps.rest, env);
      OpensAppend(ps.text, Shown(ps.name, env) + Print(ps.rest, env));
      OpensAppend(Shown(ps.name, env), Print(ps.rest, env));
      if ps.name == "" {
        OpensAppend("{", "}");
      } else {
        assert ps.name in HoleNames(ps);
        PlainOpensNothing(env[ps.name]);
      }
    }
  }

  /** Every placeholder is replaced once, in this order. */
  predicate Complete(template: string, subs: seq<Sub>) {
    GoodSubs(subs) && forall m :: m in HoleNames(Parse(template)) ==> m in EnvOf(subs)
  }

  lemma SomeMember(xs: seq<string>)
    requires xs != []
    ensures exists x :: x in xs
  {
    assert xs[0] in xs;
  }

  lemma ClashingValuesDiffer(template: string, subs: seq<Sub>, reach: nat)
    requires Complete(template, subs) && Sized(subs, reach) && !NoClash(template, subs)
    ensures SubstituteAll(template, subs) != Fill(template, EnvOf(subs))
  {
    hide Parse, SubstituteAll, State, Print, TextOpens, EnvOf, Opens;
    var last := State(template, subs);
    StateShows(template, subs, reach);
    StateCounts(template, subs, reach);
    if HoleNames(last) != [] { SomeMember(HoleNames(last)); }
    ClosedOpens(last);
    EnvIsPlain(subs);
    FilledOpens(Parse(template), EnvOf(subs));
  }

  lemma {:induction false} SameNamesSameEnv(a: seq<Sub>, b: seq<Sub>)
    requires |a| == |b| && forall i :: 0 <= i < |a| ==> a[i].name == b[i].name
    ensures EnvOf(a).Keys == EnvOf(b).Keys
  {
    forall n ensures n in EnvOf(a) <==> n in EnvOf(b) {
      if n in EnvOf(a) {
        var i :| 0 <= i < |a| && a[i].name == n;
        assert b[i].name == n;
      }
      if n in EnvOf(b) {
        var i :| 0 <= i < |b| && b[i].name == n;
        assert a[i].name == n;
      }
    }
  }

  lemma ClashIsAboutNames(template: string, a: seq<Sub>, b: seq<Sub>)
    requires |a| == |b| && forall i :: 0 <= i < |a| ==> a[i].name == b[i].name
    ensures NoClash(template, a) <==> NoClash(template, b)
  {
    hide Parse, EnvOf;
    forall i | 0 <= i < |a|
      ensures Clashes(Parse(template), EnvOf(a[..i]), a[i].name) <==> Clashes(Parse(template), EnvOf(b[..i]), b[i].name)
    {
      SameNamesSameEnv(a[..i], b[..i]);
    }
  }

  function NamesOf(subs: seq<Sub>): seq<string> { seq(|subs|, i requires 0 <= i < |subs| => subs[i].name) }

  ghost predicate AlwaysSimultaneous(template: string, names: seq<string>) {
    forall subs: seq<Sub> :: NamesOf(subs) == names && Complete(template, subs) ==> SubstituteAll(template, subs) == Fill(template, EnvOf(subs))
  }

  lemma ValuesDoNotMatter(template: string, subs: seq<Sub>, other: seq<Sub>)
    requires NamesOf(other) == NamesOf(subs) && Complete(template, other) && NoClash(template, subs)
    ensures SubstituteAll(template, other) == Fill(template, EnvOf(other))
  {
    hide Parse, SubstituteAll, Print, EnvOf, NoClash, Complete;
    assert |NamesOf(subs)| == |subs| && |NamesOf(other)| == |other|;
    forall i | 0 <= i < |subs| ensures subs[i].name == other[i].name {
      assert NamesOf(subs)[i] == NamesOf(other)[i];
    }
    ClashIsAboutNames(template, subs, other);
    CompleteIsGood(template, other);
    SequentialIsSimultaneous(template, other);
  }

  lemma CompleteIsGood(template: string, subs: seq<Sub>)
    requires Complete(template, subs)
    ensures GoodSubs(subs)
  {
  }

  /** Give every name the same value, longer than any name. */
  function Stretched(subs: seq<Sub>): seq<Sub> { Valued(NamesOf(subs), Long(Longest(NamesOf(subs)) + 2)) }

  lemma StretchedIsComplete(template: string, subs: seq<Sub>)
    requires Complete(template, subs)
    ensures Complete(template, Stretched(subs)) && Sized(Stretched(subs), Longest(NamesOf(subs)) + 1)
    ensures NamesOf(Stretched(subs)) == NamesOf(subs)
    ensures NoClash(template, Stretched(subs)) <==> NoClash(template, subs)
  {
    hide Parse, EnvOf, NoClash, Long, Longest;
    var names, long := NamesOf(subs), Stretched(subs);
    forall i | 0 <= i < |subs| ensures long[i].name == subs[i].name && |names[i]| <= Longest(names) { LongestIs(names, i); }
    SameNamesSameEnv(subs, long);
    assert forall m :: m in EnvOf(subs).Keys <==> m in EnvOf(long).Keys;
    ClashIsAboutNames(template, subs, long);
  }

  /**
   Replacing the names one after the other fills every hole at once for all values exactly when no name is
   replaced before a name that ends in `{` followed by it.
   */
  lemma SequentialIffNoClash(template: string, subs: seq<Sub>)
    requires Complete(template, subs)
    ensures AlwaysSimultaneous(template, NamesOf(subs)) <==> NoClash(template, subs)
  {
    hide Parse, SubstituteAll, Print, EnvOf, NoClash, Complete, NamesOf, Stretched, Sized;
    if NoClash(template, subs) {
      forall other: seq<Sub> | NamesOf(other) == NamesOf(subs) && Complete(template, other)
        ensures SubstituteAll(template, other) == Fill(template, EnvOf(other))
      {
        ValuesDoNotMatter(template, subs, other);
      }
    } else {
      StretchedIsComplete(template, subs);
      ClashingValuesDiffer(template, Stretched(subs), Longest(NamesOf(subs)) + 1);
    }
  }

  function Longest(names: seq<string>): nat {
    if names == [] then 0 else var rest := Longest(names[1..]); if |names[0]| > rest then |names[0]| else rest
  }

  lemma {:induction false} LongestIs(names: seq<string>, i: nat)
    requires i < |names|
    ensures |names[i]| <= Longest(names)
  {
    if i > 0 { LongestIs(names[1..], i - 1); }
  }
}
