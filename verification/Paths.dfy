/**
 Character classes, `/`-separated components, and the containment test shared by
 the parameter constraints and the coverage index (src/catalog.rs).
 */
module Paths {
  /** Unicode general category Cc. */
  predicate IsControl(c: char) { c < ' ' || '\U{7F}' <= c <= '\U{9F}' }

  /** Unicode White_Space. */
  predicate IsWhitespace(c: char) {
    || '\t' <= c <= '\r' || c == ' ' || c == '\U{85}' || c == '\U{A0}' || c == '\U{1680}'
    || '\U{2000}' <= c <= '\U{200A}' || c == '\U{2028}' || c == '\U{2029}' || c == '\U{202F}'
    || c == '\U{205F}' || c == '\U{3000}'
  }

  predicate IsAsciiAlphanumeric(c: char) { '0' <= c <= '9' || 'a' <= c <= 'z' || 'A' <= c <= 'Z' }

  predicate Blank(s: string) { forall c :: c in s ==> IsWhitespace(c) }

  predicate HasControl(s: string) { exists c :: c in s && IsControl(c) }

  predicate Absolute(s: string) { |s| > 0 && s[0] == '/' }

  /** Bytes of a character in UTF-8: string lengths are byte lengths. */
  function ByteWidth(c: char): nat {
    if c < '\U{80}' then 1 else if c < '\U{800}' then 2 else if c < '\U{10000}' then 3 else 4
  }

  function ByteLength(s: string): nat {
    if s == "" then 0 else ByteWidth(s[0]) + ByteLength(s[1..])
  }

  /** How many characters lie at or above a bound. */
  function Beyond(s: string, bound: char): nat {
    if s == "" then 0 else (if s[0] >= bound then 1 else 0) + Beyond(s[1..], bound)
  }

  /** One byte each, and one more at each of the three bounds of UTF-8. */
  lemma {:induction false} ByteLengthIs(s: string)
    ensures ByteLength(s) == |s| + Beyond(s, '\U{80}') + Beyond(s, '\U{800}') + Beyond(s, '\U{10000}')
  {
    if s != "" { ByteLengthIs(s[1..]); }
  }

  predicate FirstAt(s: string, c: char, k: nat) {
    k < |s| && s[k] == c && forall j :: 0 <= j < k ==> s[j] != c
  }

  lemma {:induction false} FirstExists(s: string, c: char)
    requires c in s
    ensures exists k :: 0 <= k < |s| && FirstAt(s, c, k)
  {
    if s[0] == c {
      assert FirstAt(s, c, 0);
    } else {
      assert s == [s[0]] + s[1..];
      FirstExists(s[1..], c);
      var k :| 0 <= k < |s[1..]| && FirstAt(s[1..], c, k);
      assert FirstAt(s, c, k + 1);
    }
  }

  /** The first position of a character, or the length when it does not occur. */
  function Find(s: string, c: char): (k: nat)
    ensures k <= |s|
    ensures k < |s| ==> s[k] == c
    ensures forall j :: 0 <= j < k ==> s[j] != c
  {
    if c !in s then |s| else
    FirstExists(s, c);
    var k :| 0 <= k < |s| && FirstAt(s, c, k);
    k
  }

  lemma FindIs(s: string, c: char, k: nat)
    requires k <= |s| && (k < |s| ==> s[k] == c)
    requires forall j :: 0 <= j < k ==> s[j] != c
    ensures Find(s, c) == k
  {
  }

  // ----- components -----

  /** `str::split('/')`: always at least one component. */
  function Split(s: string): (parts: seq<string>)
    ensures |parts| >= 1
    ensures forall i :: 0 <= i < |parts| ==> '/' !in parts[i]
    decreases |s|
  {
    var k := Find(s, '/');
    if k == |s| then [s] else [s[..k]] + Split(s[k + 1..])
  }

  predicate HasDotDot(s: string) { ".." in Split(s) }

  function Join(parts: seq<string>): string
    requires |parts| >= 1
  {
    if |parts| == 1 then parts[0] else parts[0] + "/" + Join(parts[1..])
  }

  lemma {:induction false} JoinSplit(s: string)
    ensures Join(Split(s)) == s
    decreases |s|
  {
    var k := Find(s, '/');
    if k < |s| {
      JoinSplit(s[k + 1..]);
      assert Split(s) == [s[..k]] + Split(s[k + 1..]);
      assert ([s[..k]] + Split(s[k + 1..]))[1..] == Split(s[k + 1..]);
      assert s == s[..k] + "/" + s[k + 1..];
    }
  }

  lemma FindBeforeSlash(a: string, b: string)
    ensures Find(a + "/" + b, '/') == Find(a, '/')
  {
    var s, k := a + "/" + b, Find(a, '/');
    assert forall j :: 0 <= j < |a| ==> s[j] == a[j];
    FindIs(s, '/', k);
  }

  lemma {:induction false} SplitAtSlash(a: string, b: string)
    ensures Split(a + "/" + b) == Split(a) + Split(b)
    decreases |a|
  {
    var s, k := a + "/" + b, Find(a, '/');
    FindBeforeSlash(a, b);
    if k == |a| {
      assert s[..k] == a && s[k + 1..] == b;
    } else {
      assert s[..k] == a[..k];
      assert s[k + 1..] == a[k + 1..] + "/" + b;
      SplitAtSlash(a[k + 1..], b);
    }
  }

  lemma {:induction false} JoinAppend(a: seq<string>, b: seq<string>)
    requires |a| >= 1 && |b| >= 1
    ensures Join(a + b) == Join(a) + "/" + Join(b)
    decreases |a|
  {
    if |a| == 1 {
      assert (a + b)[1..] == b;
    } else {
      JoinAppend(a[1..], b);
      assert (a + b)[1..] == a[1..] + b;
    }
  }

  lemma JoinPrefix(a: seq<string>, c: seq<string>)
    requires |a| >= 1 && a < c
    ensures Join(c) == Join(a) + "/" + Join(c[|a|..])
  {
    assert c == a + c[|a|..];
    JoinAppend(a, c[|a|..]);
  }

  /** `part` stands in the path between two slashes, or between a slash and an end. */
  predicate StandsAt(s: string, part: string, k: int) {
    && 0 <= k && k + |part| <= |s| && '/' !in part && s[k..k + |part|] == part
    && (k > 0 ==> s[k - 1] == '/') && (k + |part| < |s| ==> s[k + |part|] == '/')
  }

  lemma ShiftStands(s: string, part: string, at: nat, k: int)
    requires at < |s| && s[at] == '/' && k > at
    ensures StandsAt(s, part, k) <==> StandsAt(s[at + 1..], part, k - at - 1)
  {
    var rest := s[at + 1..];
    assert forall i :: 0 <= i < |rest| ==> rest[i] == s[at + 1 + i];
    if k + |part| <= |s| { assert s[k..k + |part|] == rest[k - at - 1..k - at - 1 + |part|]; }
  }

  lemma OnlyComponent(s: string, part: string, k: int)
    requires (forall i :: 0 <= i < |s| ==> s[i] != '/') && StandsAt(s, part, k)
    ensures part == s
  {
    assert k == 0 && |part| == |s|;
  }

  lemma HeadStands(s: string, at: nat)
    requires at <= |s| && (forall i :: 0 <= i < at ==> s[i] != '/') && (at < |s| ==> s[at] == '/')
    ensures StandsAt(s, s[..at], 0)
  {
  }

  lemma FirstStands(s: string, part: string, at: nat, k: int)
    requires at < |s| && s[at] == '/' && (forall i :: 0 <= i < at ==> s[i] != '/') && StandsAt(s, part, k) && k <= at
    ensures part == s[..at]
  {
    assert k == 0;
    assert forall i :: 0 <= i < |part| ==> part[i] == s[i] && part[i] in part;
  }

  ghost predicate Stands(s: string, part: string) { exists k :: StandsAt(s, part, k) }

  lemma StandsMore(s: string, part: string, at: nat)
    requires at < |s| && s[at] == '/' && (forall i :: 0 <= i < at ==> s[i] != '/')
    ensures Stands(s, part) <==> part == s[..at] || Stands(s[at + 1..], part)
  {
    hide StandsAt;
    HeadStands(s, at);
    var rest := s[at + 1..];
    if j :| StandsAt(rest, part, j) { StandsFurther(s, part, at, j); }
    if k :| StandsAt(s, part, k) {
      if k > at {
        ShiftStands(s, part, at, k);
      } else {
        FirstStands(s, part, at, k);
      }
    }
  }

  /** The components of a path are exactly what stands between its slashes. */
  lemma {:induction false} ComponentsAre(s: string, part: string)
    ensures part in Split(s) <==> Stands(s, part)
    decreases |s|
  {
    hide Stands;
    var at := Find(s, '/');
    if at == |s| {
      assert Split(s) == [s];
      WholeStands(s, part);
    } else {
      ComponentsAre(s[at + 1..], part);
      assert Split(s) == [s[..at]] + Split(s[at + 1..]);
      StandsMore(s, part, at);
    }
  }

  lemma WholeStands(s: string, part: string)
    requires forall i :: 0 <= i < |s| ==> s[i] != '/'
    ensures Stands(s, part) <==> part == s
  {
    HeadStands(s, |s|);
    assert s[..|s|] == s;
    if k :| StandsAt(s, part, k) { OnlyComponent(s, part, k); }
  }

  lemma StandsFurther(s: string, part: string, at: nat, j: int)
    requires at < |s| && s[at] == '/' && StandsAt(s[at + 1..], part, j)
    ensures StandsAt(s, part, at + 1 + j)
  {
    ShiftStands(s, part, at, at + 1 + j);
  }

  // ----- containment -----

  function Stem(parent: string): string {
    if |parent| > 0 && parent[|parent| - 1] == '/' then parent[..|parent| - 1] else parent
  }

  /** The textual test: equal to the stem, or the stem followed by a slash. */
  predicate AtOrUnder(parent: string, child: string) {
    var p := Stem(parent);
    p == child || (p <= child && |child| > |p| && child[|p|] == '/')
  }

  lemma UnderHasPrefix(p: string, child: string)
    requires p <= child && |child| > |p| && child[|p|] == '/'
    ensures Split(p) <= Split(child)
  {
    var rest := child[|p| + 1..];
    assert child == p + "/" + rest;
    SplitAtSlash(p, rest);
  }

  lemma PrefixIsUnder(p: string, child: string)
    requires Split(p) < Split(child)
    ensures p <= child && |child| > |p| && child[|p|] == '/'
  {
    hide Join, Split;
    JoinSplit(p);
    JoinSplit(child);
    JoinPrefix(Split(p), Split(child));
  }

  /** The textual test is exactly the prefix relation on `/`-separated components. */
  lemma AtOrUnderIsComponentPrefix(parent: string, child: string)
    ensures AtOrUnder(parent, child) <==> Split(Stem(parent)) <= Split(child)
  {
    var p := Stem(parent);
    if AtOrUnder(parent, child) && p != child {
      UnderHasPrefix(p, child);
    }
    if Split(p) < Split(child) {
      PrefixIsUnder(p, child);
    } else if Split(p) == Split(child) {
      JoinSplit(p);
      JoinSplit(child);
    }
  }
}
