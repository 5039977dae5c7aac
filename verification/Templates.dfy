/**
 `{name}` placeholders: how they are read out of a template, how one name at a
 time is replaced, and when that equals filling every hole at once
 (src/catalog.rs).
 */
module Templates {
  import opened Paths

  // ----- the code's reading -----

  /** The first `{`, and the first `}` after it; the length when there is none. */
  function Open(s: string): (o: nat)
    ensures o <= |s| && (o < |s| ==> s[o] == '{')
    ensures forall j :: 0 <= j < o ==> s[j] != '{'
  {
    Find(s, '{')
  }

  function Close(s: string): (c: nat)
    requires Open(s) < |s|
    ensures Open(s) < c <= |s| && (c < |s| ==> s[c] == '}')
    ensures forall j :: Open(s) < j < c ==> s[j] != '}'
  {
    Open(s) + 1 + Find(s[Open(s) + 1..], '}')
  }

  predicate HasHole(s: string) { Open(s) < |s| && Close(s) < |s| }

  function Named(name: string): seq<string> { if name == "" then [] else [name] }

  /** `str::replace`: every match, left to right, without rescanning what was inserted. */
  function Replace(s: string, pattern: string, value: string): string
    requires pattern != ""
    decreases |s|
  {
    if s == "" then ""
    else if pattern <= s then value + Replace(s[|pattern|..], pattern, value)
    else [s[0]] + Replace(s[1..], pattern, value)
  }

  function Braced(name: string): (r: string)
    ensures |r| == |name| + 2 && r[0] == '{' && r[|r| - 1] == '}'
  {
    "{" + name + "}"
  }

  function SubstituteOne(template: string, name: string, value: string): string {
    Replace(template, Braced(name), value)
  }

  datatype Sub = Sub(name: string, value: string)

  /** The code's substitution: one name after the other, each over the whole string. */
  function SubstituteAll(template: string, subs: seq<Sub>): string
    decreases |subs|
  {
    if subs == [] then template
    else SubstituteOne(SubstituteAll(template, subs[..|subs| - 1]), subs[|subs| - 1].name, subs[|subs| - 1].value)
  }

  // ----- the declarative reading -----

  /** Literal text up to a hole, the hole, and what follows; a nameless hole is a skipped `{}`. */
  datatype Pieces = End(tail: string) | Next(text: string, name: string, rest: Pieces)

  function Parse(s: string): Pieces
    decreases |s|
  {
    if HasHole(s) then Next(s[..Open(s)], s[Open(s) + 1..Close(s)], Parse(s[Close(s) + 1..]))
    else End(s)
  }

  lemma UnclosedText(s: string)
    requires !HasHole(s)
    ensures NoClose(s)
  {
  }

  /** Literal text opens no hole that the text itself could close. */
  predicate Tidy(ps: Pieces) {
    match ps
    case End(t) => NoClose(t)
    case Next(t, n, r) => '{' !in t && '}' !in n && Tidy(r)
  }

  predicate NoClose(t: string) { forall i, j :: 0 <= i < j < |t| && t[i] == '{' ==> t[j] != '}' }

  lemma {:induction false} ParseIsTidy(s: string)
    ensures Tidy(Parse(s))
    decreases |s|
  {
    if HasHole(s) { ParseIsTidy(s[Close(s) + 1..]); } else { UnclosedText(s); }
  }

  function Shown(name: string, env: map<string, string>): string {
    if name != "" && name in env then env[name] else Braced(name)
  }

  function Print(ps: Pieces, env: map<string, string>): string {
    match ps
    case End(t) => t
    case Next(t, n, r) => t + (Shown(n, env) + Print(r, env))
  }

  /** All holes at once. */
  function Fill(template: string, env: map<string, string>): string { Print(Parse(template), env) }

  function HoleNames(ps: Pieces): seq<string> {
    match ps
    case End(_) => []
    case Next(_, n, r) => Named(n) + HoleNames(r)
  }

  predicate PlainText(s: string) { '{' !in s && '}' !in s }

  predicate Plain(env: map<string, string>) { forall n :: n in env ==> PlainText(env[n]) }

  /** Names between a `{` and the next `}`, in order; an empty `{}` is skipped. */
  function Placeholders(s: string): seq<string> { HoleNames(Parse(s)) }

  predicate HasPlaceholder(s: string) { Placeholders(s) != [] }

  lemma {:induction false} HolesAreNames(ps: Pieces)
    requires Tidy(ps)
    ensures forall n :: n in HoleNames(ps) ==> n != "" && '}' !in n
  {
    if ps.Next? { HolesAreNames(ps.rest); }
  }

  lemma NextPlaceholders(names: seq<string>, s: string)
    requires HasHole(s)
    ensures names + Named(s[Open(s) + 1..Close(s)]) + Placeholders(s[Close(s) + 1..]) == names + Placeholders(s)
  {
  }

  /** The scan itself: repeatedly the text between the next `{` and the `}` after it. */
  method ExtractPlaceholders(s: string) returns (names: seq<string>)
    ensures names == Placeholders(s)
  {
    names := [];
    var rest := s;
    while HasHole(rest)
      invariant names + Placeholders(rest) == Placeholders(s)
      decreases |rest|
    {
      var name := rest[Open(rest) + 1..Close(rest)];
      NextPlaceholders(names, rest);
      assert names + Named("") == names;
      if name != "" { names := names + [name]; }
      rest := rest[Close(rest) + 1..];
    }
  }

  lemma Reassemble(s: string, o: nat, c: nat)
    requires o < c < |s| && s[o] == '{' && s[c] == '}'
    ensures s[..o] + (Braced(s[o + 1..c]) + s[c + 1..]) == s
  {
    assert Braced(s[o + 1..c]) == s[o..c + 1];
    assert s[o..c + 1] + s[c + 1..] == s[o..];
  }

  /** Printing with nothing filled in gives the template back. */
  lemma {:induction false} PrintParse(s: string)
    ensures Fill(s, map[]) == s
    decreases |s|
  {
    if HasHole(s) {
      PrintParse(s[Close(s) + 1..]);
      Reassemble(s, Open(s), Close(s));
    }
  }

  // ----- one replacement, exactly -----

  predicate EndsWith(s: string, suffix: string) {
    |suffix| <= |s| && s[|s| - |suffix|..] == suffix
  }

  /** What replacing `{name}` does to a hole: also to one whose name ends in `{name`. */
  function SteppedHole(hole: string, env: map<string, string>, name: string, value: string): string {
    if hole != "" && hole in env then env[hole]
    else if EndsWith("{" + hole, "{" + name) then ("{" + hole)[..|hole| - |name|] + value
    else Braced(hole)
  }

  function Stepped(ps: Pieces, env: map<string, string>, name: string, value: string): string {
    match ps
    case End(t) => t
    case Next(t, n, r) => t + (SteppedHole(n, env, name, value) + Stepped(r, env, name, value))
  }

  lemma {:induction false} ReplaceSkips(t: string, rest: string, name: string, value: string)
    requires '{' !in t
    ensures Replace(t + rest, Braced(name), value) == t + Replace(rest, Braced(name), value)
    decreases |t|
  {
    if t == "" {
      assert t + rest == rest;
    } else {
      assert (t + rest)[0] == t[0] && (t + rest)[1..] == t[1..] + rest;
      ReplaceSkips(t[1..], rest, name, value);
    }
  }

  lemma MatchEndsAtClose(x: string, rest: string, name: string)
    requires '}' !in x && '}' !in name
    ensures Braced(name) <= x + ("}" + rest) <==> x == "{" + name
  {
    var s, p := x + ("}" + rest), Braced(name);
    if p <= s {
      assert s[|name| + 1] == p[|name| + 1];
      assert s[|x|] == '}';
      assert |x| < |p| ==> p[|x|] == '}';
      assert |x| == |name| + 1;
      assert x == s[..|x|] && p[..|x|] == "{" + name;
    }
    if x == "{" + name {
      assert s == p + rest;
    }
  }

  /** Up to the first `}`, the only possible match is the one that ends there. */
  lemma {:induction false} ReplaceToClose(x: string, rest: string, name: string, value: string)
    requires '}' !in x && '}' !in name
    ensures Replace(x + ("}" + rest), Braced(name), value)
         == (if EndsWith(x, "{" + name) then x[..|x| - |name| - 1] + value else x + "}") + Replace(rest, Braced(name), value)
    decreases |x|
  {
    var s, p := x + ("}" + rest), Braced(name);
    MatchEndsAtClose(x, rest, name);
    if x == "{" + name {
      assert s[|p|..] == rest;
    } else if x == "" {
      assert s[1..] == rest;
    } else {
      assert s[1..] == x[1..] + ("}" + rest);
      ReplaceToClose(x[1..], rest, name, value);
      SuffixOfTail(x, "{" + name);
    }
  }

  lemma SuffixOfTail(x: string, suffix: string)
    requires x != "" && x != suffix
    ensures EndsWith(x, suffix) <==> EndsWith(x[1..], suffix)
    ensures EndsWith(x, suffix) ==> x[..|x| - |suffix|] == [x[0]] + x[1..][..|x| - 1 - |suffix|]
  {
    if |suffix| < |x| {
      assert x[|x| - |suffix|..] == x[1..][|x| - 1 - |suffix|..];
    } else if |suffix| == |x| {
      assert x[0..] == x;
    }
  }

  lemma UnclosedHasNoMatch(t: string, name: string)
    requires NoClose(t)
    ensures !(Braced(name) <= t)
  {
    var p := Braced(name);
    assert p[|name| + 1] == '}';
  }

  lemma {:induction false} ReplaceUnclosed(t: string, name: string, value: string)
    requires NoClose(t)
    ensures Replace(t, Braced(name), value) == t
    decreases |t|
  {
    if t != "" {
      UnclosedHasNoMatch(t, name);
      ReplaceUnclosed(t[1..], name, value);
    }
  }

  lemma ReplaceInHole(hole: string, rest: string, env: map<string, string>, name: string, value: string)
    requires Plain(env) && name != "" && '}' !in name && '}' !in hole
    ensures Replace(Shown(hole, env) + rest, Braced(name), value)
         == SteppedHole(hole, env, name, value) + Replace(rest, Braced(name), value)
  {
    if hole != "" && hole in env {
      ReplaceSkips(env[hole], rest, name, value);
    } else {
      ReplaceToClose("{" + hole, rest, name, value);
      assert Braced(hole) + rest == ("{" + hole) + ("}" + rest);
      assert ("{" + hole) + "}" == Braced(hole);
    }
  }

  /** Every effect of one replacement on a partly filled template. */
  lemma {:induction false} ReplaceIsStepped(ps: Pieces, env: map<string, string>, name: string, value: string)
    requires Tidy(ps) && Plain(env) && name != "" && '}' !in name && name !in env
    ensures Replace(Print(ps, env), Braced(name), value) == Stepped(ps, env, name, value)
  {
    match ps
    case End(t) => ReplaceUnclosed(t, name, value);
    case Next(t, n, r) =>
      ReplaceIsStepped(r, env, name, value);
      ReplaceSkips(t, Shown(n, env) + Print(r, env), name, value);
      ReplaceInHole(n, Print(r, env), env, name, value);
  }

  /** A hole whose name ends in `{name` is broken open by replacing `{name}` before it. */
  predicate Clashes(ps: Pieces, env: map<string, string>, name: string) {
    exists m :: m in HoleNames(ps) && m !in env && EndsWith(m, "{" + name)
  }

  lemma SuffixOfHole(m: string, name: string)
    requires name != ""
    ensures EndsWith("{" + m, "{" + name) <==> m == name || EndsWith(m, "{" + name)
    ensures m == name ==> ("{" + m)[..|m| - |name|] == ""
  {
    if "{" + m == "{" + name {
      assert m == ("{" + m)[1..] == ("{" + name)[1..] == name;
    } else {
      SuffixOfTail("{" + m, "{" + name);
      assert ("{" + m)[1..] == m;
    }
  }

  lemma SteppedHoleFills(hole: string, env: map<string, string>, name: string, value: string)
    requires name != "" && name !in env
    requires hole == "" || hole in env || !EndsWith(hole, "{" + name)
    ensures SteppedHole(hole, env, name, value) == Shown(hole, env[name := value])
  {
    SuffixOfHole(hole, name);
  }

  lemma {:induction false} SteppedWithoutClash(ps: Pieces, env: map<string, string>, name: string, value: string)
    requires !Clashes(ps, env, name) && name != ""
    requires name !in env
    ensures Stepped(ps, env, name, value) == Print(ps, env[name := value])
  {
    if ps.Next? {
      assert forall m :: m in HoleNames(ps.rest) ==> m in HoleNames(ps);
      SteppedWithoutClash(ps.rest, env, name, value);
      if ps.name != "" { assert ps.name in HoleNames(ps); }
      SteppedHoleFills(ps.name, env, name, value);
    }
  }

  // ----- a clash is a difference: the opening braces do not add up -----

  function Opens(s: string): nat {
    if s == "" then 0 else (if s[0] == '{' then 1 else 0) + Opens(s[1..])
  }

  lemma {:induction false} OpensAppend(a: string, b: string)
    ensures Opens(a + b) == Opens(a) + Opens(b)
    decreases |a|
  {
    if a == "" {
      assert a + b == b;
    } else {
      assert (a + b)[1..] == a[1..] + b;
      OpensAppend(a[1..], b);
    }
  }

  lemma {:induction false} PlainOpensNothing(s: string)
    requires '{' !in s
    ensures Opens(s) == 0
    decreases |s|
  {
    if s != "" { PlainOpensNothing(s[1..]); }
  }

  /** A hole broken open loses an opening brace that the open hole still shows. */
  lemma SteppedHoleOpens(hole: string, env: map<string, string>, name: string, value: string)
    requires name != "" && '{' !in value
    requires hole != "" && hole !in env && EndsWith(hole, "{" + name)
    ensures Opens(SteppedHole(hole, env, name, value)) < Opens(Braced(hole))
  {
    SuffixOfHole(hole, name);
    var cut := ("{" + hole)[..|hole| - |name|];
    assert "{" + hole == cut + ("{" + name);
    OpensAppend(cut, "{" + name);
    OpensAppend("{" + hole, "}");
    OpensAppend(cut, value);
    PlainOpensNothing(value);
  }

  lemma {:induction false} ClashLosesBraces(ps: Pieces, env: map<string, string>, name: string, value: string)
    requires name != "" && name !in env && '{' !in value
    ensures Opens(Stepped(ps, env, name, value)) <= Opens(Print(ps, env[name := value]))
    ensures Clashes(ps, env, name) ==> Opens(Stepped(ps, env, name, value)) < Opens(Print(ps, env[name := value]))
  {
    if ps.Next? {
      var e := env[name := value];
      OpensAppend(ps.text, SteppedHole(ps.name, env, name, value) + Stepped(ps.rest, env, name, value));
      OpensAppend(SteppedHole(ps.name, env, name, value), Stepped(ps.rest, env, name, value));
      OpensAppend(ps.text, Shown(ps.name, e) + Print(ps.rest, e));
      OpensAppend(Shown(ps.name, e), Print(ps.rest, e));
      ClashLosesBraces(ps.rest, env, name, value);
      if ps.name != "" && ps.name !in env && EndsWith(ps.name, "{" + name) {
        SteppedHoleOpens(ps.name, env, name, value);
      } else {
        SteppedHoleFills(ps.name, env, name, value);
      }
    }
  }

  /** One replacement step equals filling that one name exactly when no other open hole's name ends in `{name`. */
  lemma StepIsFillIff(ps: Pieces, env: map<string, string>, name: string, value: string)
    requires Tidy(ps) && Plain(env) && name != "" && '}' !in name && name !in env && PlainText(value)
    ensures Replace(Print(ps, env), Braced(name), value) == Print(ps, env[name := value]) <==> !Clashes(ps, env, name)
  {
    ReplaceIsStepped(ps, env, name, value);
    if Clashes(ps, env, name) {
      ClashLosesBraces(ps, env, name, value);
    } else {
      SteppedWithoutClash(ps, env, name, value);
    }
  }

  // ----- the whole substitution -----

  function EnvOf(subs: seq<Sub>): (env: map<string, string>)
    ensures forall n :: n in env <==> exists i :: 0 <= i < |subs| && subs[i].name == n
    decreases |subs|
  {
    if subs == [] then map[] else EnvOf(subs[..|subs| - 1])[subs[|subs| - 1].name := subs[|subs| - 1].value]
  }

  predicate DistinctSubs(subs: seq<Sub>) { forall i, j :: 0 <= i < j < |subs| ==> subs[i].name != subs[j].name }

  predicate GoodSubs(subs: seq<Sub>) {
    && DistinctSubs(subs)
    && forall i :: 0 <= i < |subs| ==> subs[i].name != "" && '}' !in subs[i].name && PlainText(subs[i].value)
  }

  /** No replacement comes before a hole whose name ends in `{` and the replaced name. */
  predicate NoClash(template: string, subs: seq<Sub>) {
    forall i :: 0 <= i < |subs| ==> !Clashes(Parse(template), EnvOf(subs[..i]), subs[i].name)
  }

  lemma EnvIsPlain(subs: seq<Sub>)
    requires forall i :: 0 <= i < |subs| ==> PlainText(subs[i].value)
    ensures Plain(EnvOf(subs))
    decreases |subs|
  {
    if subs != [] { EnvIsPlain(subs[..|subs| - 1]); }
  }

  lemma SequentialStep(template: string, subs: seq<Sub>, last: Sub)
    requires GoodSubs(subs + [last]) && !Clashes(Parse(template), EnvOf(subs), last.name)
    requires SubstituteAll(template, subs) == Fill(template, EnvOf(subs))
    ensures SubstituteOne(SubstituteAll(template, subs), last.name, last.value) == Fill(template, EnvOf(subs)[last.name := last.value])
  {
    assert (subs + [last])[|subs|] == last;
    assert forall i :: 0 <= i < |subs| ==> (subs + [last])[i] == subs[i];
    EnvIsPlain(subs);
    ParseIsTidy(template);
    StepIsFillIff(Parse(template), EnvOf(subs), last.name, last.value);
  }

  lemma NoClashBefore(template: string, subs: seq<Sub>)
    requires NoClash(template, subs) && subs != []
    ensures NoClash(template, subs[..|subs| - 1])
    ensures !Clashes(Parse(template), EnvOf(subs[..|subs| - 1]), subs[|subs| - 1].name)
  {
    hide Clashes, EnvOf, Parse;
    forall i | 0 <= i < |subs| - 1
      ensures !Clashes(Parse(template), EnvOf(subs[..|subs| - 1][..i]), subs[i].name)
    {
      assert subs[..|subs| - 1][..i] == subs[..i];
    }
  }

  lemma GoodBefore(subs: seq<Sub>)
    requires GoodSubs(subs) && subs != []
    ensures GoodSubs(subs[..|subs| - 1])
  {
  }

  /** Replacing the names one at a time fills every hole at once. */
  lemma {:induction false} SequentialIsSimultaneous(template: string, subs: seq<Sub>)
    requires GoodSubs(subs) && NoClash(template, subs)
    ensures SubstituteAll(template, subs) == Fill(template, EnvOf(subs))
    decreases |subs|
  {
    hide NoClash, GoodSubs, Clashes, Parse, Print, SubstituteOne;
    if subs == [] {
      PrintParse(template);
    } else {
      var n := |subs| - 1;
      assert subs == subs[..n] + [subs[n]];
      NoClashBefore(template, subs);
      GoodBefore(subs);
      SequentialIsSimultaneous(template, subs[..n]);
      SequentialStep(template, subs[..n], subs[n]);
    }
  }

  predicate BraceFree(names: seq<string>) { forall i :: 0 <= i < |names| ==> '{' !in names[i] }

  lemma BraceFreeSuffix(m: string, name: string)
    requires '{' !in m
    ensures !EndsWith(m, "{" + name)
  {
    var suffix := "{" + name;
    assert suffix[0] == '{';
    assert forall k :: 0 <= k < |m| ==> m[k..][0] == m[k];
  }

  /** Names without braces, the documented form, can never clash. */
  lemma BraceFreeNeverClash(template: string, subs: seq<Sub>)
    requires BraceFree(Placeholders(template))
    ensures NoClash(template, subs)
  {
    forall i | 0 <= i < |subs|
      ensures !Clashes(Parse(template), EnvOf(subs[..i]), subs[i].name)
    {
      forall m | '{' !in m
        ensures !EndsWith(m, "{" + subs[i].name)
      {
        BraceFreeSuffix(m, subs[i].name);
      }
    }
  }

  lemma HoleIs(s: string, o: nat, c: nat)
    requires o < c < |s| && s[o] == '{' && s[c] == '}'
    requires forall j :: 0 <= j < o ==> s[j] != '{'
    requires forall j :: o < j < c ==> s[j] != '}'
    ensures Open(s) == o && HasHole(s) && Close(s) == c
  {
    FindIs(s, '{', o);
    FindIs(s[o + 1..], '}', c - o - 1);
  }

  /** With a nested name the two readings part: `b` is replaced inside `{a{b}` first. */
  lemma NestedNameBreaks()
    ensures var template := "{b}{a{b}";
            && Placeholders(template) == ["b", "a{b"]
            && SubstituteOne(SubstituteOne(template, "b", "1"), "a{b", "2") == "1{a1"
            && Fill(template, map["b" := "1", "a{b" := "2"]) == "12"
  {
    NestedParse();
    NestedReplace();
    NestedPrint();
  }

  lemma NestedParse()
    ensures Parse("{b}{a{b}") == Next("", "b", Next("", "a{b", End("")))
  {
    hide Open, Close;
    HoleIs("{b}{a{b}", 0, 2);
    HoleIs("{a{b}", 0, 4);
    assert "{b}{a{b}"[3..] == "{a{b}" && "{a{b}"[5..] == "";
    assert "{b}{a{b}"[1..2] == "b" && "{a{b}"[1..4] == "a{b";
  }

  lemma NestedReplace()
    ensures SubstituteOne(SubstituteOne("{b}{a{b}", "b", "1"), "a{b", "2") == "1{a1"
  {
    assert "{b}{a{b}" == "{b" + ("}" + "{a{b}") && "{a{b}" == "{a{b" + ("}" + "");
    ReplaceToClose("{b", "{a{b}", "b", "1");
    ReplaceToClose("{a{b", "", "b", "1");
    assert EndsWith("{b", "{b") && EndsWith("{a{b", "{b");
    assert SubstituteOne("{b}{a{b}", "b", "1") == "1{a1";
    ReplaceUnclosed("1{a1", "a{b", "2");
  }

  /** Together with a literal `}` the broken hole even forms a placeholder that no record declared. */
  lemma NestedNameLeavesHole()
    ensures Placeholders(SubstituteOne(SubstituteOne("{b}{a{b}}", "b", "1"), "a{b", "2")) == ["a1"]
  {
    hide Replace, Parse;
    assert "{b}{a{b}}" == "{b" + ("}" + "{a{b}}") && "{a{b}}" == "{a{b" + ("}" + "}");
    ReplaceToClose("{b", "{a{b}}", "b", "1");
    ReplaceToClose("{a{b", "}", "b", "1");
    assert EndsWith("{b", "{b") && EndsWith("{a{b", "{b");
    ReplaceSkips("}", "", "b", "1");
    assert "}" + "" == "}" && Replace("", Braced("b"), "1") == "" by { ReplaceUnclosed("", "b", "1"); }
    assert SubstituteOne("{b}{a{b}}", "b", "1") == "1{a1}";
    ReplaceSkips("1", "{a1}", "a{b", "2");
    assert "1" + "{a1}" == "1{a1}" && "{a1}" == "{a1" + ("}" + "");
    ReplaceToClose("{a1", "", "a{b", "2");
    ReplaceUnclosed("", "a{b", "2");
    assert SubstituteOne("1{a1}", "a{b", "2") == "1{a1}";
    OneHole();
  }

  lemma OneHole()
    ensures Placeholders("1{a1}") == ["a1"]
  {
    HoleIs("1{a1}", 1, 4);
    assert "1{a1}"[..1] == "1" && "1{a1}"[2..4] == "a1" && "1{a1}"[5..] == "";
    assert Parse("1{a1}") == Next("1", "a1", Parse(""));
  }

  lemma NestedPrint()
    ensures Print(Next("", "b", Next("", "a{b", End(""))), map["b" := "1", "a{b" := "2"]) == "12"
  {
  }

  // ----- nothing is left to fill -----

  /** Text put in front of a template. */
  function Lead(t: string, ps: Pieces): (r: Pieces)
    ensures HoleNames(r) == HoleNames(ps)
  {
    match ps
    case End(x) => End(t + x)
    case Next(x, n, r) => Next(t + x, n, r)
  }

  lemma LeadHole(t: string, rest: string)
    requires '{' !in t
    ensures HasHole(rest) ==> HasHole(t + rest) && Open(t + rest) == |t| + Open(rest) && Close(t + rest) == |t| + Close(rest)
    ensures !HasHole(rest) ==> !HasHole(t + rest)
  {
    if HasHole(rest) {
      HoleIs(t + rest, |t| + Open(rest), |t| + Close(rest));
    } else {
      UnclosedText(rest);
      LeadUnclosed(t, rest);
    }
  }

  lemma LeadUnclosed(t: string, rest: string)
    requires '{' !in t && NoClose(rest)
    ensures !HasHole(t + rest)
  {
    assert NoClose(t + rest);
  }

  lemma LeadSlices(t: string, rest: string, o: nat, c: nat)
    requires o < c < |rest|
    ensures (t + rest)[..|t| + o] == t + rest[..o]
    ensures (t + rest)[|t| + o + 1..|t| + c] == rest[o + 1..c]
    ensures (t + rest)[|t| + c + 1..] == rest[c + 1..]
  {
  }

  lemma LeadParse(t: string, rest: string)
    requires '{' !in t
    ensures Parse(t + rest) == Lead(t, Parse(rest))
  {
    hide Open, Close;
    LeadHole(t, rest);
    if HasHole(rest) { LeadSlices(t, rest, Open(rest), Close(rest)); }
  }

  lemma ParseEmptyHole(rest: string)
    ensures Parse("{}" + rest) == Next("", "", Parse(rest))
  {
    var s := "{}" + rest;
    HoleIs(s, 0, 1);
    assert s[..0] == "" && s[1..1] == "" && s[2..] == rest;
  }

  lemma ShownSkips(name: string, env: map<string, string>, rest: string)
    requires Plain(env) && (name == "" || name in env)
    ensures Placeholders(Shown(name, env) + rest) == Placeholders(rest)
  {
    if name == "" {
      ParseEmptyHole(rest);
      assert Braced("") == "{}";
    } else {
      LeadParse(env[name], rest);
    }
  }

  lemma ParseUnclosed(t: string)
    requires NoClose(t)
    ensures Parse(t) == End(t)
  {
  }

  /** A template filled with plain values has no placeholder left. */
  lemma {:induction false} FilledHasNoHoles(ps: Pieces, env: map<string, string>)
    requires Tidy(ps) && Plain(env)
    requires forall n :: n in HoleNames(ps) ==> n in env
    ensures Placeholders(Print(ps, env)) == []
  {
    match ps
    case End(t) => ParseUnclosed(t);
    case Next(t, n, r) =>
      assert forall m :: m in HoleNames(r) ==> m in HoleNames(ps);
      FilledHasNoHoles(r, env);
      if n != "" { assert n in HoleNames(ps); }
      ShownSkips(n, env, Print(r, env));
      LeadParse(t, Shown(n, env) + Print(r, env));
  }
}
