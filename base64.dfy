/** Base64 as the browser's `btoa` and `atob` implement it: encoding with
    the alphabet and padding of RFC 4648 (section 4), and the WHATWG
    "forgiving-base64 decode", which drops ASCII whitespace, accepts missing
    padding and fails on any other character. */
module Base64 {
  import opened Wrappers
  import opened Utf8

  /** The character for a 6-bit value (Table 1 of RFC 4648). */
  function CharOf(v: int): (c: char)
    requires 0 <= v < 64
    ensures IsAlphabet(c)
  {
    if v < 26 then ('A' as int + v) as char
    else if v < 52 then ('a' as int + v - 26) as char
    else if v < 62 then ('0' as int + v - 52) as char
    else if v == 62 then '+' else '/'
  }

  predicate IsAlphabet(c: char)
  {
    'A' <= c <= 'Z' || 'a' <= c <= 'z' || '0' <= c <= '9' || c == '+' || c == '/'
  }

  /** The 6-bit value of an alphabet character. */
  function ValueOf(c: char): (v: int)
    requires IsAlphabet(c)
    ensures 0 <= v < 64 && CharOf(v) == c
  {
    if 'A' <= c <= 'Z' then c as int - 'A' as int
    else if 'a' <= c <= 'z' then c as int - 'a' as int + 26
    else if '0' <= c <= '9' then c as int - '0' as int + 52
    else if c == '+' then 62 else 63
  }

  predicate IsAsciiWhitespace(c: char)
  {
    c == '\t' || c == '\n' || c == '\U{000C}' || c == '\r' || c == ' '
  }

  /** Three bytes as four 6-bit values, most significant bits first. */
  function Quad(b0: byte, b1: byte, b2: byte): (vs: seq<int>)
    ensures |vs| == 4 && forall i :: 0 <= i < 4 ==> 0 <= vs[i] < 64
  {
    [b0 as int / 4, b0 as int % 4 * 16 + b1 as int / 16, b1 as int % 16 * 4 + b2 as int / 64, b2 as int % 64]
  }

  /** The 6-bit groups of the input: four per 3-byte group, and for a final
      group of one or two bytes two or three, the missing bits zero. */
  function Sextets(bs: Bytes): (vs: seq<int>)
    ensures forall i :: 0 <= i < |vs| ==> 0 <= vs[i] < 64
    ensures |vs| % 4 == (if |bs| % 3 == 0 then 0 else |bs| % 3 + 1)
    decreases |bs|
  {
    if |bs| == 0 then []
    else if |bs| == 1 then Quad(bs[0], 0, 0)[..2]
    else if |bs| == 2 then Quad(bs[0], bs[1], 0)[..3]
    else Quad(bs[0], bs[1], bs[2]) + Sextets(bs[3..])
  }

  function Chars(vs: seq<int>): (s: string)
    requires forall i :: 0 <= i < |vs| ==> 0 <= vs[i] < 64
    ensures |s| == |vs| && forall i :: 0 <= i < |s| ==> s[i] == CharOf(vs[i])
  {
    if vs == [] then [] else [CharOf(vs[0])] + Chars(vs[1..])
  }

  function Padding(n: nat): string
  {
    if n % 3 == 1 then "==" else if n % 3 == 2 then "=" else ""
  }

  /** `btoa`: the base64 text of a byte string, padded to a multiple of four. */
  function Encode(bs: Bytes): string
  {
    Chars(Sextets(bs)) + Padding(|bs|)
  }

  /** Four 6-bit values as three bytes. */
  function Triple(v0: int, v1: int, v2: int, v3: int): (bs: Bytes)
    requires 0 <= v0 < 64 && 0 <= v1 < 64 && 0 <= v2 < 64 && 0 <= v3 < 64
    ensures |bs| == 3
  {
    [(v0 * 4 + v1 / 16) as byte, (v1 % 16 * 16 + v2 / 4) as byte, (v2 % 4 * 64 + v3) as byte]
  }

  /** The bytes of a run of 6-bit values: three per group of four, and one
      or two for a final group of two or three (the left-over bits are
      dropped, as the forgiving decoder does). */
  function Octets(vs: seq<int>): Bytes
    requires forall i :: 0 <= i < |vs| ==> 0 <= vs[i] < 64
    requires |vs| % 4 != 1
    decreases |vs|
  {
    if |vs| == 0 then []
    else if |vs| == 2 then Triple(vs[0], vs[1], 0, 0)[..1]
    else if |vs| == 3 then Triple(vs[0], vs[1], vs[2], 0)[..2]
    else Triple(vs[0], vs[1], vs[2], vs[3]) + Octets(vs[4..])
  }

  function RemoveWhitespace(s: string): (r: string)
    ensures forall i :: 0 <= i < |r| ==> !IsAsciiWhitespace(r[i])
  {
    if s == [] then []
    else if IsAsciiWhitespace(s[0]) then RemoveWhitespace(s[1..])
    else [s[0]] + RemoveWhitespace(s[1..])
  }

  /** Step 2 of forgiving-base64 decode: one or two trailing `=` go. */
  function StripPadding(s: string): string
  {
    if |s| >= 2 && s[|s| - 2..] == "==" then s[..|s| - 2]
    else if |s| >= 1 && s[|s| - 1] == '=' then s[..|s| - 1]
    else s
  }

  /** `atob`: the bytes of a base64 text, or nothing where `atob` throws. */
  function Decode(text: string): (r: Option<Bytes>)
    ensures r.Some? ==> forall c | c in text :: IsAsciiWhitespace(c) || IsAlphabet(c) || c == '='
  {
    var s := RemoveWhitespace(text);
    var t := if |s| % 4 == 0 then StripPadding(s) else s;
    if |t| % 4 == 1 then None
    else if exists i :: 0 <= i < |t| && !IsAlphabet(t[i]) then None
    else
      assert forall c | c in text :: IsAsciiWhitespace(c) || IsAlphabet(c) || c == '=' by {
        NoStrayCharacters(text, s, t);
      }
      Some(Octets(Values(t)))
  }

  /** The 6-bit values of a run of alphabet characters. */
  function Values(t: string): (vs: seq<int>)
    requires forall i :: 0 <= i < |t| ==> IsAlphabet(t[i])
    ensures |vs| == |t| && forall i :: 0 <= i < |t| ==> 0 <= vs[i] < 64 && CharOf(vs[i]) == t[i]
  {
    seq(|t|, i requires 0 <= i < |t| => ValueOf(t[i]))
  }

  lemma NoStrayCharacters(text: string, s: string, t: string)
    requires s == RemoveWhitespace(text)
    requires t == if |s| % 4 == 0 then StripPadding(s) else s
    requires forall i :: 0 <= i < |t| ==> IsAlphabet(t[i])
    ensures forall c | c in text :: IsAsciiWhitespace(c) || IsAlphabet(c) || c == '='
  {
    forall c | c in s ensures IsAlphabet(c) || c == '=' {
      var i :| 0 <= i < |s| && s[i] == c;
      if i < |t| {
        assert t[i] == s[i];
      }
    }
    forall c | c in text ensures IsAsciiWhitespace(c) || c in s {
      if !IsAsciiWhitespace(c) {
        RemoveWhitespaceKeeps(text, c);
      }
    }
  }

  lemma {:induction false} RemoveWhitespaceKeeps(s: string, c: char)
    requires c in s && !IsAsciiWhitespace(c)
    ensures c in RemoveWhitespace(s)
    decreases |s|
  {
    if s[0] != c {
      assert c in s[1..];
      RemoveWhitespaceKeeps(s[1..], c);
    }
  }

  // ---------------------------------------------------------------------
  // Round trip
  // ---------------------------------------------------------------------

  /** Three bytes survive the split into four sextets and back. */
  lemma GroupRoundTrip(b0: byte, b1: byte, b2: byte)
    ensures var q := Quad(b0, b1, b2); Triple(q[0], q[1], q[2], q[3]) == [b0, b1, b2]
  {
  }

  lemma {:induction false} OctetsOfSextets(bs: Bytes)
    ensures |Sextets(bs)| % 4 != 1
    ensures Octets(Sextets(bs)) == bs
    decreases |bs|
  {
    var vs := Sextets(bs);
    if |bs| == 1 {
      GroupRoundTrip(bs[0], 0, 0);
      var q := Quad(bs[0], 0, 0);
      assert Triple(vs[0], vs[1], 0, 0) == Triple(q[0], q[1], q[2], q[3]);
    } else if |bs| == 2 {
      GroupRoundTrip(bs[0], bs[1], 0);
      var q := Quad(bs[0], bs[1], 0);
      assert Triple(vs[0], vs[1], vs[2], 0) == Triple(q[0], q[1], q[2], q[3]);
    } else if |bs| >= 3 {
      var q := Quad(bs[0], bs[1], bs[2]);
      var rest := Sextets(bs[3..]);
      assert vs == q + rest;
      assert vs[..4] == q && vs[4..] == rest;
      GroupRoundTrip(bs[0], bs[1], bs[2]);
      OctetsOfSextets(bs[3..]);
      assert Octets(vs) == Triple(q[0], q[1], q[2], q[3]) + Octets(rest);
      assert bs == [bs[0], bs[1], bs[2]] + bs[3..];
    }
  }

  lemma {:induction false} RemoveWhitespaceNone(s: string)
    requires forall i :: 0 <= i < |s| ==> !IsAsciiWhitespace(s[i])
    ensures RemoveWhitespace(s) == s
    decreases |s|
  {
    if s != [] {
      RemoveWhitespaceNone(s[1..]);
    }
  }

  /** The text `btoa` produces holds no whitespace and is a multiple of four long. */
  lemma EncodeShape(bs: Bytes)
    ensures forall i :: 0 <= i < |Encode(bs)| ==> !IsAsciiWhitespace(Encode(bs)[i])
    ensures |Encode(bs)| % 4 == 0
  {
    var body, text := Chars(Sextets(bs)), Encode(bs);
    forall i | 0 <= i < |text| ensures !IsAsciiWhitespace(text[i]) {
      if i < |body| { assert text[i] == body[i]; }
    }
  }

  /** Removing the padding of `btoa`'s output leaves exactly the sextet characters. */
  lemma StripEncodePadding(bs: Bytes)
    ensures StripPadding(Encode(bs)) == Chars(Sextets(bs))
  {
    var vs := Sextets(bs);
    var body, text := Chars(vs), Encode(bs);
    if |bs| % 3 == 1 {
      assert text[|text| - 2..] == "==";
      assert text[..|text| - 2] == body;
    } else if |bs| % 3 == 2 {
      assert text[|text| - 1] == '=';
      assert text[..|text| - 1] == body;
    } else {
      assert text == body;
      if |text| >= 1 {
        assert text[|text| - 1] == CharOf(vs[|vs| - 1]);
        assert text[|text| - 2..] != "==" by {
          assert text[|text| - 2..][1] == text[|text| - 1];
        }
      }
    }
  }

  /** Reading the sextet characters back gives the sextets. */
  lemma ValuesOfChars(vs: seq<int>)
    requires forall i :: 0 <= i < |vs| ==> 0 <= vs[i] < 64
    ensures Values(Chars(vs)) == vs
  {
    var values := Values(Chars(vs));
    forall i | 0 <= i < |vs| ensures values[i] == vs[i] {
      CharOfInjective(values[i], vs[i]);
    }
  }

  /** `atob(btoa(b)) == b` for every byte string. */
  lemma DecodeEncode(bs: Bytes)
    ensures Decode(Encode(bs)) == Some(bs)
  {
    var vs := Sextets(bs);
    var text := Encode(bs);
    EncodeShape(bs);
    RemoveWhitespaceNone(text);
    StripEncodePadding(bs);
    var t := Chars(vs);
    assert (if |text| % 4 == 0 then StripPadding(text) else text) == t;
    OctetsOfSextets(bs);
    assert |t| % 4 != 1;
    assert forall i :: 0 <= i < |t| ==> IsAlphabet(t[i]);
    ValuesOfChars(vs);
    assert Decode(text) == Some(Octets(Values(t)));
  }

  lemma CharOfInjective(v: int, w: int)
    requires 0 <= v < 64 && 0 <= w < 64 && CharOf(v) == CharOf(w)
    ensures v == w
  {
  }
}
