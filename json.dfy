/** The part of JSON (RFC 8259) the add-in's config text uses: string
    literals as `JSON.stringify` writes them, and their parsing back. */
module Json {
  import opened Wrappers

  const HexDigits: string := "0123456789abcdef"

  /** How `JSON.stringify` writes one character inside a string literal:
      quote and backslash escaped, the five control characters with a short
      escape written that way, every other control character as `\u00xx`
      with lower-case hex digits, and everything else as itself. */
  function EscapeChar(c: char): (r: string)
    ensures |r| >= 1
  {
    if c == '"' then "\\\""
    else if c == '\\' then "\\\\"
    else if c == '\U{0008}' then "\\b"
    else if c == '\t' then "\\t"
    else if c == '\n' then "\\n"
    else if c == '\U{000C}' then "\\f"
    else if c == '\r' then "\\r"
    else if c < ' ' then "\\u00" + [HexDigits[c as int / 16], HexDigits[c as int % 16]]
    else [c]
  }

  function Escape(s: string): string
  {
    if s == [] then [] else EscapeChar(s[0]) + Escape(s[1..])
  }

  /** `JSON.stringify` of a string: its escaped characters between quotes. */
  function Quote(s: string): string
  {
    "\"" + Escape(s) + "\""
  }

  function HexValue(c: char): (r: Option<int>)
    ensures r.Some? ==> 0 <= r.value < 16
  {
    if '0' <= c <= '9' then Some(c as int - '0' as int)
    else if 'a' <= c <= 'f' then Some(c as int - 'a' as int + 10)
    else if 'A' <= c <= 'F' then Some(c as int - 'A' as int + 10)
    else None
  }

  /** The character a `\u` escape with these four hex digits stands for.
      Escapes of surrogate halves are refused (see the README). */
  function UnicodeEscape(h: string): (r: Option<char>)
    requires |h| == 4
  {
    var d0 :- HexValue(h[0]);
    var d1 :- HexValue(h[1]);
    var d2 :- HexValue(h[2]);
    var d3 :- HexValue(h[3]);
    var n := ((d0 * 16 + d1) * 16 + d2) * 16 + d3;
    assert 0 <= n < 0x10000;
    if 0xD800 <= n < 0xE000 then None else Some(n as char)
  }

  /** The character a one-letter escape stands for. */
  function ShortEscape(c: char): Option<char>
  {
    if c == '"' then Some('"')
    else if c == '\\' then Some('\\')
    else if c == '/' then Some('/')
    else if c == 'b' then Some('\U{0008}')
    else if c == 'f' then Some('\U{000C}')
    else if c == 'n' then Some('\n')
    else if c == 'r' then Some('\r')
    else if c == 't' then Some('\t')
    else None
  }

  /** Reads the body of a string literal up to its closing quote: the
      characters it denotes and the text after the quote.  A raw control
      character, an unknown escape or a missing quote is a syntax error. */
  function ParseChars(t: string): (r: Option<(string, string)>)
    ensures r.Some? ==> |r.value.1| < |t|
    decreases |t|
  {
    if t == [] then None
    else if t[0] == '"' then Some(([], t[1..]))
    else if t[0] < ' ' then None
    else if t[0] == '\\' then
      if |t| < 2 then None
      else if t[1] == 'u' then
        if |t| < 6 then None
        else
          var c :- UnicodeEscape(t[2..6]);
          var (s, rest) :- ParseChars(t[6..]);
          Some(([c] + s, rest))
      else
        var c :- ShortEscape(t[1]);
        var (s, rest) :- ParseChars(t[2..]);
        Some(([c] + s, rest))
    else
      var (s, rest) :- ParseChars(t[1..]);
      Some(([t[0]] + s, rest))
  }

  /** Reads one string literal at the start of `t`. */
  function ParseString(t: string): (r: Option<(string, string)>)
    ensures r.Some? ==> |r.value.1| < |t|
  {
    if t == [] || t[0] != '"' then None else ParseChars(t[1..])
  }

  predicate HasShortEscape(c: char)
  {
    c == '"' || c == '\\' || c == '\U{0008}' || c == '\t' || c == '\n' || c == '\U{000C}' || c == '\r'
  }

  /** The escape of one character is read back as that character. */
  lemma ParseEscapeChar(c: char, rest: string)
    ensures ParseChars(EscapeChar(c) + rest)
            == (var r :- ParseChars(rest); Some(([c] + r.0, r.1)))
  {
    if HasShortEscape(c) {
      ParseShortEscape(c, rest);
    } else if c < ' ' {
      ParseHexEscape(c, rest);
    } else {
      var t := EscapeChar(c) + rest;
      assert t[0] == c && t[1..] == rest;
    }
  }

  lemma ParseShortEscape(c: char, rest: string)
    requires HasShortEscape(c)
    ensures ParseChars(EscapeChar(c) + rest)
            == (var r :- ParseChars(rest); Some(([c] + r.0, r.1)))
  {
    var e := EscapeChar(c);
    var t := e + rest;
    assert |e| == 2 && e[0] == '\\' && ShortEscape(e[1]) == Some(c);
    assert t[0] == '\\' && t[1] == e[1] && t[2..] == rest;
  }

  lemma ParseHexEscape(c: char, rest: string)
    requires c < ' ' && !HasShortEscape(c)
    ensures ParseChars(EscapeChar(c) + rest)
            == (var r :- ParseChars(rest); Some(([c] + r.0, r.1)))
  {
    var e := EscapeChar(c);
    var t := e + rest;
    assert |e| == 6;
    assert t[0] == '\\' && t[1] == 'u' && t[2..6] == e[2..];
    assert HexValue(t[2]) == Some(0) && HexValue(t[3]) == Some(0);
    assert HexValue(t[4]) == Some(c as int / 16);
    assert HexValue(t[5]) == Some(c as int % 16);
    assert UnicodeEscape(t[2..6]) == Some(c);
    assert t[6..] == rest;
  }

  /** Parsing a stringified string gives back the string and the text after it. */
  lemma {:induction false} ParseEscape(s: string, rest: string)
    ensures ParseChars(Escape(s) + "\"" + rest) == Some((s, rest))
    decreases |s|
  {
    if s == [] {
      assert Escape(s) + "\"" + rest == "\"" + rest;
    } else {
      assert Escape(s) + "\"" + rest == EscapeChar(s[0]) + (Escape(s[1..]) + "\"" + rest);
      ParseEscapeChar(s[0], Escape(s[1..]) + "\"" + rest);
      ParseEscape(s[1..], rest);
      assert [s[0]] + s[1..] == s;
    }
  }

  lemma ParseQuote(s: string, rest: string)
    ensures ParseString(Quote(s) + rest) == Some((s, rest))
  {
    var t := Quote(s) + rest;
    assert t[1..] == Escape(s) + "\"" + rest;
    ParseEscape(s, rest);
  }
}
