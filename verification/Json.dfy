/** The JSON string printer and a reader for section 7 of RFC 8259 (src/cli/render.rs). */
module Json {
  import opened Outcomes

  // ----- the printer -----

  function HexDigit(n: nat): char
    requires n < 16
  {
    "0123456789abcdef"[n]
  }

  /** Four lower-case hex digits. */
  function Hex4(n: nat): string
    requires n < 0x10000
  {
    [HexDigit(n / 4096), HexDigit(n / 256 % 16), HexDigit(n / 16 % 16), HexDigit(n % 16)]
  }

  function Escape(c: char): string {
    if c == '"' then "\\\""
    else if c == '\\' then "\\\\"
    else if c == '\n' then "\\n"
    else if c == '\r' then "\\r"
    else if c == '\t' then "\\t"
    else if c == '\U{2028}' then "\\u2028"
    else if c == '\U{2029}' then "\\u2029"
    else if c < ' ' then "\\u" + Hex4(c as int)
    else [c]
  }

  function Body(s: string): string
    decreases |s|
  {
    if s == "" then "" else Escape(s[0]) + Body(s[1..])
  }

  lemma {:induction false} BodyAppend(a: string, b: string)
    ensures Body(a + b) == Body(a) + Body(b)
    decreases |a|
  {
    if a == "" {
      assert a + b == b;
    } else {
      assert (a + b)[0] == a[0] && (a + b)[1..] == a[1..] + b;
      BodyAppend(a[1..], b);
    }
  }

  /** `json_str`: a quote, each character escaped where needed, a quote. */
  method JsonStr(s: string) returns (out: string)
    ensures out == "\"" + Body(s) + "\""
  {
    hide Hex4, Escape;
    out := "\"";
    for i := 0 to |s|
      invariant out == "\"" + Body(s[..i])
    {
      assert s[..i + 1] == s[..i] + [s[i]];
      BodyAppend(s[..i], [s[i]]);
      assert Body([s[i]]) == Escape(s[i]) + Body([s[i]][1..]);
      out := out + Escape(s[i]);
    }
    assert s[..|s|] == s;
    out := out + "\"";
  }

  // ----- a reader -----

  function HexValue(c: char): Option<nat> {
    if '0' <= c <= '9' then Some(c as nat - '0' as nat)
    else if 'a' <= c <= 'f' then Some(c as nat - 'a' as nat + 10)
    else if 'A' <= c <= 'F' then Some(c as nat - 'A' as nat + 10)
    else None
  }

  /** The value of four hex digits. */
  function HexUnit(s: string): Option<nat>
    requires |s| >= 4
  {
    var a, b, c, d := HexValue(s[0]), HexValue(s[1]), HexValue(s[2]), HexValue(s[3]);
    if a.Some? && b.Some? && c.Some? && d.Some? then Some(a.value * 4096 + b.value * 256 + c.value * 16 + d.value) else None
  }

  predicate Surrogate(u: int) { 0xD800 <= u < 0xE000 }

  function ShortEscape(c: char): Option<char> {
    match c
    case '"' => Some('"')
    case '\\' => Some('\\')
    case '/' => Some('/')
    case 'b' => Some('\U{8}')
    case 'f' => Some('\U{C}')
    case 'n' => Some('\n')
    case 'r' => Some('\r')
    case 't' => Some('\t')
    case _ => None
  }

  /** The code point of a surrogate pair, when the text after `\u` spells one. */
  function PairPoint(high: nat, s: string): Option<nat>
    requires 0xD800 <= high < 0xDC00
  {
    if |s| < 6 || s[0] != '\\' || s[1] != 'u' then None else
    var low := HexUnit(s[2..6]);
    if low.Some? && 0xDC00 <= low.value < 0xE000 then Some(0x10000 + (high - 0xD800) * 1024 + (low.value - 0xDC00)) else None
  }

  /** The characters between the quotes, or None when the text is not a string body followed by its closing quote. */
  function Read(s: string): Option<string>
    decreases |s|
  {
    if s == "" then None
    else if s[0] == '"' then (if |s| == 1 then Some("") else None)
    else if s[0] < ' ' then None
    else if s[0] != '\\' then Then(s[0], Read(s[1..]))
    else if |s| < 2 then None
    else if s[1] != 'u' then
      var c := ShortEscape(s[1]);
      if c.None? then None else Then(c.value, Read(s[2..]))
    else if |s| < 6 then None
    else
      var u := HexUnit(s[2..6]);
      if u.None? then None
      else if !Surrogate(u.value) then (if 0 <= u.value < 0xD800 || 0xE000 <= u.value < 0x10000 then Then(u.value as char, Read(s[6..])) else None)
      else if u.value >= 0xDC00 then None
      else
        var p := PairPoint(u.value, s[6..]);
        if p.None? || p.value >= 0x11_0000 || p.value < 0x1_0000 then None else Then(p.value as char, Read(s[12..]))
  }

  function Then(c: char, rest: Option<string>): Option<string> {
    if rest.None? then None else Some([c] + rest.value)
  }

  /** Reading a whole JSON string. */
  function Decode(s: string): Option<string> {
    if s == "" || s[0] != '"' then None else Read(s[1..])
  }

  // ----- the round trip -----

  lemma HexReadsBack(n: nat)
    requires n < 32
    ensures HexUnit(Hex4(n)) == Some(n)
  {
    assert n / 4096 == 0 && n / 256 % 16 == 0;
    assert HexValue(HexDigit(n / 16 % 16)) == Some(n / 16 % 16);
    assert HexValue(HexDigit(n % 16)) == Some(n % 16);
    assert HexValue(HexDigit(0)) == Some(0);
  }

  lemma ReadUnicode(h: string, c: char, rest: string)
    requires |h| == 4 && HexUnit(h) == Some(c as nat) && c as int < 0xD800
    ensures Read("\\u" + h + rest) == Then(c, Read(rest))
  {
    var s := "\\u" + h + rest;
    assert s[2..6] == h && s[6..] == rest;
  }

  lemma ReadShort(e: char, c: char, rest: string)
    requires e != 'u' && ShortEscape(e) == Some(c)
    ensures Read(['\\', e] + rest) == Then(c, Read(rest))
  {
    var s := ['\\', e] + rest;
    assert s[2..] == rest;
  }

  /** One escaped character reads back as itself. */
  lemma ReadEscape(c: char, rest: string)
    ensures Read(Escape(c) + rest) == Then(c, Read(rest))
  {
    hide Read;
    if c == '"' || c == '\\' {
      ReadShort(c, c, rest);
      assert Escape(c) == ['\\', c];
    } else if c == '\n' {
      ReadShort('n', c, rest);
    } else if c == '\r' {
      ReadShort('r', c, rest);
    } else if c == '\t' {
      ReadShort('t', c, rest);
    } else if c == '\U{2028}' {
      assert HexUnit("2028") == Some(0x2028);
      ReadUnicode("2028", c, rest);
      assert "\\u2028" == "\\u" + "2028";
    } else if c == '\U{2029}' {
      assert HexUnit("2029") == Some(0x2029);
      ReadUnicode("2029", c, rest);
      assert "\\u2029" == "\\u" + "2029";
    } else if c < ' ' {
      HexReadsBack(c as nat);
      ReadUnicode(Hex4(c as nat), c, rest);
    } else {
      ReadPlain(c, rest);
    }
  }

  lemma ReadPlain(c: char, rest: string)
    requires c >= ' ' && c != '"' && c != '\\'
    ensures Read([c] + rest) == Then(c, Read(rest))
  {
    assert ([c] + rest)[1..] == rest;
  }

  lemma {:induction false} ReadBody(s: string)
    ensures Read(Body(s) + "\"") == Some(s)
    decreases |s|
  {
    hide Read, Escape;
    if s == "" {
      assert Read("\"") == Some("") by { ReadClosing(); }
      assert Body(s) + "\"" == "\"";
    } else {
      ReadBody(s[1..]);
      assert Body(s) + "\"" == Escape(s[0]) + (Body(s[1..]) + "\"");
      ReadEscape(s[0], Body(s[1..]) + "\"");
      assert s == [s[0]] + s[1..];
    }
  }

  lemma ReadClosing()
    ensures Read("\"") == Some("")
  {
  }

  /** Every string survives printing and reading. */
  lemma JsonRoundTrip(s: string)
    ensures Decode("\"" + Body(s) + "\"") == Some(s)
  {
    hide Read, Body;
    ReadBody(s);
    var out := "\"" + Body(s) + "\"";
    assert out[1..] == Body(s) + "\"";
  }

  // ----- what the output never holds -----

  /** Characters that may stand unescaped in the output. */
  predicate Harmless(c: char) { c >= ' ' && c != '\U{2028}' && c != '\U{2029}' }

  /** A quote is only ever written right after its own backslash. */
  predicate QuotesEscaped(s: string)
    decreases |s|
  {
    if s == "" then true
    else if s[0] == '"' then false
    else if s[0] == '\\' then |s| >= 2 && QuotesEscaped(s[2..])
    else QuotesEscaped(s[1..])
  }

  lemma HexIsHarmless(n: nat, d: char)
    requires n < 0x10000 && d in Hex4(n)
    ensures Harmless(d) && d != '"' && d != '\\'
  {
    assert forall k: nat :: k < 16 ==> '0' <= HexDigit(k) <= 'f' && HexDigit(k) != '\\';
  }

  lemma EscapeIsHarmless(c: char, d: char)
    requires d in Escape(c)
    ensures Harmless(d)
  {
    hide Hex4;
    if c < ' ' && c != '\n' && c != '\r' && c != '\t' && d !in "\\u" { HexIsHarmless(c as nat, d); }
  }

  lemma EscapeSkips(c: char, rest: string)
    ensures QuotesEscaped(Escape(c) + rest) <==> QuotesEscaped(rest)
  {
    var s := Escape(c) + rest;
    if c == '"' || c == '\\' || c == '\n' || c == '\r' || c == '\t' {
      assert s[2..] == rest;
    } else if c == '\U{2028}' || c == '\U{2029}' || c < ' ' {
      HexDigitsSkip(s, rest);
    } else {
      assert s[1..] == rest;
    }
  }

  lemma HexDigitsSkip(s: string, rest: string)
    requires |s| == 6 + |rest| && s[6..] == rest && s[0] == '\\'
    requires forall i :: 2 <= i < 6 ==> s[i] != '"' && s[i] != '\\'
    ensures QuotesEscaped(s) <==> QuotesEscaped(rest)
  {
    assert s[2..][1..] == s[3..] && s[3..][1..] == s[4..] && s[4..][1..] == s[5..] && s[5..][1..] == s[6..];
    assert QuotesEscaped(s[5..]) <==> QuotesEscaped(s[6..]);
    assert QuotesEscaped(s[4..]) <==> QuotesEscaped(s[5..]);
    assert QuotesEscaped(s[3..]) <==> QuotesEscaped(s[4..]);
    assert QuotesEscaped(s[2..]) <==> QuotesEscaped(s[3..]);
  }

  /** No raw control character, no literal U+2028 or U+2029, no quote that could end the string early. */
  lemma {:induction false} OutputIsClean(s: string)
    ensures forall c :: c in Body(s) ==> Harmless(c)
    ensures QuotesEscaped(Body(s))
    decreases |s|
  {
    hide Escape, Harmless;
    if s != "" {
      OutputIsClean(s[1..]);
      forall c | c in Escape(s[0]) ensures Harmless(c) { EscapeIsHarmless(s[0], c); }
      EscapeSkips(s[0], Body(s[1..]));
    }
  }
}
