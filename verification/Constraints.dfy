/** The per-parameter constraints of a catalog record (src/catalog.rs). */
module Constraints {
  import opened Outcomes
  import opened Records
  import opened Paths

  const DEFAULT_MAX_LEN: nat := 256
  const DEFAULT_DENY_GLOB := true

  datatype ParamConstraint =
    | Token(maxLen: Option<nat>)
    | PathUnder(allowPrefix: seq<string>, denyGlob: Option<bool>, maxLen: Option<nat>)
    | Enum(values: seq<string>)
    | Segment(maxLen: Option<nat>)

  datatype Defect =
    | EmptyValue | TooLong | BadCharacter | NotUnderPrefix | GlobDenied | NotListed | DotComponent

  function Or<T>(o: Option<T>, d: T): T { if o.Some? then o.value else d }

  predicate TokenChar(c: char) { IsAsciiAlphanumeric(c) || c in "-_.@:\\/" }

  predicate SegmentChar(c: char) { IsAsciiAlphanumeric(c) || c in "._-" }

  predicate WellFormed(c: ParamConstraint) {
    match c
    case PathUnder(prefixes, _, _) =>
      prefixes != [] && forall i :: 0 <= i < |prefixes| ==> Absolute(prefixes[i]) && EndsWithSlash(prefixes[i])
    case Enum(values) => values != []
    case _ => true
  }

  function Normalized(c: ParamConstraint): ParamConstraint {
    match c
    case Token(m) => Token(Some(Or(m, DEFAULT_MAX_LEN)))
    case PathUnder(ps, g, m) => PathUnder(ps, Some(Or(g, DEFAULT_DENY_GLOB)), Some(Or(m, DEFAULT_MAX_LEN)))
    case Enum(vs) => Enum(vs)
    case Segment(m) => Segment(Some(Or(m, DEFAULT_MAX_LEN)))
  }

  function ValueDefect(c: ParamConstraint, value: string): Option<Defect> {
    match c
    case Token(m) =>
      if value == "" then Some(EmptyValue)
      else if ByteLength(value) > Or(m, DEFAULT_MAX_LEN) then Some(TooLong)
      else if exists ch :: ch in value && !TokenChar(ch) then Some(BadCharacter)
      else None
    case PathUnder(ps, g, m) =>
      if ByteLength(value) > Or(m, DEFAULT_MAX_LEN) then Some(TooLong)
      else if !exists i :: 0 <= i < |ps| && AtOrUnder(ps[i], value) then Some(NotUnderPrefix)
      else if Or(g, DEFAULT_DENY_GLOB) && HasGlob(value) then Some(GlobDenied)
      else None
    case Enum(vs) => if value in vs then None else Some(NotListed)
    case Segment(m) =>
      if value == "" then Some(EmptyValue)
      else if ByteLength(value) > Or(m, DEFAULT_MAX_LEN) then Some(TooLong)
      else if value == "." || value == ".." then Some(DotComponent)
      else if exists ch :: ch in value && !SegmentChar(ch) then Some(BadCharacter)
      else None
  }

  predicate Accepts(c: ParamConstraint, value: string) { ValueDefect(c, value).None? }

  /** Two constraints that agree up to their defaults give every value the same verdict. */
  lemma NormalFormsAgree(a: ParamConstraint, b: ParamConstraint, value: string)
    requires Normalized(a) == Normalized(b)
    ensures ValueDefect(a, value) == ValueDefect(b, value)
  {
  }

  /** An accepted path lies inside an allowed directory by whole components, never as a textual sibling. */
  lemma AcceptedPathIsInsideAPrefix(c: ParamConstraint, value: string)
    requires c.PathUnder? && Accepts(c, value)
    ensures exists i :: 0 <= i < |c.allowPrefix| && Split(Stem(c.allowPrefix[i])) <= Split(value)
  {
    var i :| 0 <= i < |c.allowPrefix| && AtOrUnder(c.allowPrefix[i], value);
    AtOrUnderIsComponentPrefix(c.allowPrefix[i], value);
  }

  /** An accepted segment is exactly one path component, and not a climbing one. */
  lemma AcceptedSegmentIsOneComponent(c: ParamConstraint, value: string)
    requires c.Segment? && Accepts(c, value)
    ensures Split(value) == [value] && !HasDotDot(value)
  {
    assert !SegmentChar('/');
    FindIs(value, '/', |value|);
  }

  const SMALL := "abcdefghijklmnopqrstuvwxyz"
  const CAPITAL := "ABCDEFGHIJKLMNOPQRSTUVWXYZ"
  const DIGITS := "0123456789"

  predicate LetterOrDigit(c: char) { c in SMALL || c in CAPITAL || c in DIGITS }

  lemma Alphabet(c: char)
    ensures LetterOrDigit(c) <==> IsAsciiAlphanumeric(c)
  {
    SmallLetter(c);
    CapitalLetter(c);
    if '0' <= c <= '9' { assert DIGITS[(c - '0') as int] == c; }
  }

  lemma SmallLetter(c: char)
    ensures c in SMALL <==> 'a' <= c <= 'z'
  {
    if 'a' <= c <= 'z' { assert SMALL[(c - 'a') as int] == c; }
  }

  lemma CapitalLetter(c: char)
    ensures c in CAPITAL <==> 'A' <= c <= 'Z'
  {
    if 'A' <= c <= 'Z' { assert CAPITAL[(c - 'A') as int] == c; }
  }

  /** A constraint that can accept something: directories written as such, a non-empty list. */
  lemma WellFormedSpelled(c: ParamConstraint)
    ensures WellFormed(c) <==>
            && (c.Enum? ==> |c.values| > 0)
            && (c.PathUnder? ==>
                  && |c.allowPrefix| > 0
                  && forall i :: 0 <= i < |c.allowPrefix| ==>
                       var p := c.allowPrefix[i]; |p| > 0 && p[0] == '/' && p[|p| - 1] == '/')
  {
  }

  function Limit(maxLen: Option<nat>): nat { match maxLen case Some(n) => n case None => 256 }

  /** What each kind of constraint accepts, spelled out. */
  ghost predicate AcceptsSpelled(c: ParamConstraint, v: string) {
    match c
    case Token(m) =>
      && v != "" && ByteLength(v) <= Limit(m)
      && forall x :: x in v ==> LetterOrDigit(x) || x == '-' || x == '_' || x == '.' || x == '@' || x == ':' || x == '\\' || x == '/'
    case PathUnder(ps, g, m) =>
      && ByteLength(v) <= Limit(m)
      && (exists i :: 0 <= i < |ps| && Split(Stem(ps[i])) <= Split(v))
      && (g != Some(false) ==> forall x :: x in v ==> x != '*' && x != '?' && x != '[')
    case Enum(vs) => v in vs
    case Segment(m) =>
      && v != "" && ByteLength(v) <= Limit(m) && v != "." && v != ".."
      && forall x :: x in v ==> LetterOrDigit(x) || x == '.' || x == '_' || x == '-'
  }

  lemma AcceptsExactly(c: ParamConstraint, v: string)
    ensures Accepts(c, v) <==> AcceptsSpelled(c, v)
  {
    hide ByteLength, IsAsciiAlphanumeric, LetterOrDigit, Split, AtOrUnder;
    match c
    case Token(_) => forall x: char ensures LetterOrDigit(x) <==> IsAsciiAlphanumeric(x) { Alphabet(x); }
    case Segment(_) => forall x: char ensures LetterOrDigit(x) <==> IsAsciiAlphanumeric(x) { Alphabet(x); }
    case PathUnder(ps, _, _) =>
      forall i | 0 <= i < |ps| ensures AtOrUnder(ps[i], v) <==> Split(Stem(ps[i])) <= Split(v) { AtOrUnderIsComponentPrefix(ps[i], v); }
    case Enum(_) =>
  }
}
