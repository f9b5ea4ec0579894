/** UTF-8 as the add-in uses it: the streaming `TextDecoder("utf-8")` that
    `streamToString` drives chunk by chunk, the "UTF-8 decode" behind
    `Blob.text()`, the UTF-8 encoding that `unescape(encodeURIComponent(s))`
    produces, and the strict decoding that `decodeURIComponent(escape(b))`
    performs.  The decoder is the UTF-8 decoder of the WHATWG Encoding
    Standard (section 9.1.1), one byte at a time; the encoder is RFC 3629.
    Text is `seq<char>`, whose elements are Unicode scalar values. */
module Utf8 {
  import opened Wrappers

  newtype byte = x: int | 0 <= x < 0x100
  type Bytes = seq<byte>

  const ReplacementCharacter: char := '\U{FFFD}'
  const ByteOrderMark: char := '\U{FEFF}'

  /** The bytes of a sequence of chunks, in arrival order. */
  function Flatten(chunks: seq<Bytes>): Bytes
  {
    if chunks == [] then [] else Flatten(chunks[..|chunks| - 1]) + chunks[|chunks| - 1]
  }

  predicate IsScalarValue(n: int)
  {
    0 <= n < 0xD800 || 0xE000 <= n <= 0x10FFFF
  }

  // ---------------------------------------------------------------------
  // The decoder state machine
  // ---------------------------------------------------------------------

  /** The state of a UTF-8 decoder: the code point assembled so far, how
      many continuation bytes it has seen and needs, and the range the next
      continuation byte must fall in. */
  datatype Decoder = Decoder(codePoint: int, bytesSeen: int, bytesNeeded: int,
                             lowerBoundary: int, upperBoundary: int)

  const Initial := Decoder(0, 0, 0, 0x80, 0xBF)

  /** What one step of the decoder hands to its caller. */
  datatype Token = Scalar(c: char) | Error

  /** The states the decoder can reach from `Initial`.  For each partial
      sequence it bounds the code point so far tightly enough that every
      completion is a Unicode scalar value (the boundaries exclude overlong
      forms, surrogates and values above U+10FFFF). */
  predicate ValidState(d: Decoder)
  {
    match d.bytesNeeded
    case 0 => d == Initial
    case 1 =>
      d.bytesSeen == 0 && 2 <= d.codePoint <= 0x1F
      && d.lowerBoundary == 0x80 && d.upperBoundary == 0xBF
    case 2 =>
      if d.bytesSeen == 0 then
        0 <= d.codePoint <= 0xF
        && d.lowerBoundary == (if d.codePoint == 0 then 0xA0 else 0x80)
        && d.upperBoundary == (if d.codePoint == 0xD then 0x9F else 0xBF)
      else
        d.bytesSeen == 1
        && (0x20 <= d.codePoint <= 0x35F || 0x380 <= d.codePoint <= 0x3FF)
        && d.lowerBoundary == 0x80 && d.upperBoundary == 0xBF
    case 3 =>
      if d.bytesSeen == 0 then
        0 <= d.codePoint <= 4
        && d.lowerBoundary == (if d.codePoint == 0 then 0x90 else 0x80)
        && d.upperBoundary == (if d.codePoint == 4 then 0x8F else 0xBF)
      else if d.bytesSeen == 1 then
        0x10 <= d.codePoint <= 0x10F && d.lowerBoundary == 0x80 && d.upperBoundary == 0xBF
      else
        d.bytesSeen == 2
        && 0x400 <= d.codePoint <= 0x43FF && d.lowerBoundary == 0x80 && d.upperBoundary == 0xBF
    case _ => false
  }

  /** The handler for a byte when no sequence is in progress: an ASCII byte
      is a code point, a lead byte starts a sequence (its boundaries reject
      overlong, surrogate and out-of-range forms), anything else is an error. */
  function Lead(b: byte): (r: (Decoder, seq<Token>))
    ensures ValidState(r.0)
  {
    if b <= 0x7F then (Initial, [Scalar(b as char)])
    else if 0xC2 <= b <= 0xDF then (Decoder(b as int % 0x20, 0, 1, 0x80, 0xBF), [])
    else if 0xE0 <= b <= 0xEF then
      (Decoder(b as int % 0x10, 0, 2, if b == 0xE0 then 0xA0 else 0x80,
               if b == 0xED then 0x9F else 0xBF), [])
    else if 0xF0 <= b <= 0xF4 then
      (Decoder(b as int % 0x8, 0, 3, if b == 0xF0 then 0x90 else 0x80,
               if b == 0xF4 then 0x8F else 0xBF), [])
    else (Initial, [Error])
  }

  /** The decoder's handler for one byte.  A byte outside the expected
      continuation range resets the decoder, reports an error and is then
      processed again from the initial state ("restore byte to the queue"). */
  function Handle(d: Decoder, b: byte): (r: (Decoder, seq<Token>))
    requires ValidState(d)
    ensures ValidState(r.0)
  {
    if d.bytesNeeded == 0 then Lead(b)
    else if !(d.lowerBoundary <= b as int <= d.upperBoundary) then
      var (next, tokens) := Lead(b);
      (next, [Error] + tokens)
    else
      // (code point << 6) | (byte & 0x3F)
      var cp := d.codePoint * 0x40 + b as int % 0x40;
      if d.bytesSeen + 1 == d.bytesNeeded then
        assert IsScalarValue(cp);
        (Initial, [Scalar(cp as char)])
      else (Decoder(cp, d.bytesSeen + 1, d.bytesNeeded, 0x80, 0xBF), [])
  }

  /** The handler for end-of-queue: an unfinished sequence is an error. */
  function Finish(d: Decoder): seq<Token>
  {
    if d.bytesNeeded != 0 then [Error] else []
  }

  /** The handler extended to every state, so that runs can be folded
      generically; only states satisfying `ValidState` ever reach it. */
  function Step(d: Decoder, b: byte): (Decoder, seq<Token>)
  {
    if ValidState(d) then Handle(d, b) else (d, [Error])
  }

  /** Feeds the bytes to `step` in order: the final state and every token produced. */
  function Fold(step: (Decoder, byte) -> (Decoder, seq<Token>), d: Decoder, bs: Bytes): (Decoder, seq<Token>)
    decreases |bs|
  {
    if bs == [] then (d, [])
    else
      var first := step(d, bs[0]);
      var rest := Fold(step, first.0, bs[1..]);
      (rest.0, first.1 + rest.1)
  }

  /** Folding over `a + b` is folding over `a`, then over `b` from where
      `a` left the state, for any step function. */
  lemma {:induction false} FoldAppend(step: (Decoder, byte) -> (Decoder, seq<Token>), d: Decoder, a: Bytes, b: Bytes)
    ensures Fold(step, d, a + b).0 == Fold(step, Fold(step, d, a).0, b).0
    ensures Fold(step, d, a + b).1 == Fold(step, d, a).1 + Fold(step, Fold(step, d, a).0, b).1
    decreases |a|
  {
    if a == [] {
      assert a + b == b;
    } else {
      var first := step(d, a[0]);
      assert (a + b)[0] == a[0];
      assert (a + b)[1..] == a[1..] + b;
      FoldAppend(step, first.0, a[1..], b);
    }
  }

  /** A run from a valid state only passes through valid states. */
  lemma {:induction false} FoldValid(d: Decoder, bs: Bytes)
    requires ValidState(d)
    ensures ValidState(Fold(Step, d, bs).0)
    decreases |bs|
  {
    if bs != [] {
      FoldValid(Step(d, bs[0]).0, bs[1..]);
    }
  }

  /** Feeds the bytes to the decoder in order; the final state and every token produced. */
  function Run(d: Decoder, bs: Bytes): (r: (Decoder, seq<Token>))
    requires ValidState(d)
    ensures ValidState(r.0)
  {
    FoldValid(d, bs);
    Fold(Step, d, bs)
  }

  /** Feeding a byte and then the rest. */
  lemma RunCons(d: Decoder, b: byte, rest: Bytes)
    requires ValidState(d)
    ensures var first := Handle(d, b);
            var tail := Run(first.0, rest);
            Run(d, [b] + rest) == (tail.0, first.1 + tail.1)
  {
    assert ([b] + rest)[0] == b && ([b] + rest)[1..] == rest;
  }

  /** Feeding `a + b` is feeding `a`, then feeding `b` from where `a` left
      the decoder: the decoder's state carries everything across a boundary. */
  lemma RunAppend(d: Decoder, a: Bytes, b: Bytes)
    requires ValidState(d)
    ensures Run(d, a + b).0 == Run(Run(d, a).0, b).0
    ensures Run(d, a + b).1 == Run(d, a).1 + Run(Run(d, a).0, b).1
  {
    FoldAppend(Step, d, a, b);
  }

  /** Error mode "replacement": every error becomes U+FFFD. */
  function Replace(ts: seq<Token>): (s: string)
    ensures |s| == |ts|
    ensures forall i :: 0 <= i < |ts| ==>
              s[i] == (if ts[i].Error? then ReplacementCharacter else ts[i].c)
  {
    if ts == [] then [] else Replace(ts[..|ts| - 1]) + [if ts[|ts| - 1].Error? then ReplacementCharacter else ts[|ts| - 1].c]
  }

  /** Drops a leading U+FEFF the first time output appears; `bomSeen` says
      whether output has appeared before. */
  function SkipBom(bomSeen: bool, s: string): (bool, string)
  {
    if bomSeen || s == [] then (bomSeen, s)
    else (true, if s[0] == ByteOrderMark then s[1..] else s)
  }

  lemma SkipBomAppend(seen: bool, s: string, t: string)
    ensures SkipBom(seen, s + t).0 == SkipBom(SkipBom(seen, s).0, t).0
    ensures SkipBom(seen, s + t).1 == SkipBom(seen, s).1 + SkipBom(SkipBom(seen, s).0, t).1
  {
    if !seen && s != [] {
      assert (s + t)[0] == s[0];
      if s[0] == ByteOrderMark {
        assert (s + t)[1..] == s[1..] + t;
      }
    }
  }

  /** "UTF-8 decode": the whole input at once, U+FFFD for each error and a
      leading byte order mark removed.  This is what a fresh
      `TextDecoder("utf-8")` returns for `decode(bytes)`, and what
      `Blob.text()` returns. */
  function Decode(bs: Bytes): string
  {
    var (d, ts) := Run(Initial, bs);
    SkipBom(false, Replace(ts + Finish(d))).1
  }

  /** The browser's `TextDecoder("utf-8")` with its default options (BOM
      removed, errors replaced).  `Decode(input, stream)` is
      `decode(input, {stream})`; a call after a flushing call starts a new
      stream. */
  class TextDecoder {
    var decoder: Decoder
    var bomSeen: bool
    var doNotFlush: bool

    ghost predicate Valid()
      reads this
    {
      ValidState(decoder) && (!doNotFlush ==> decoder == Initial)
    }

    constructor ()
      ensures Valid() && decoder == Initial && !bomSeen && !doNotFlush
    {
      decoder, bomSeen, doNotFlush := Initial, false, false;
    }

    method Decode(input: Bytes, stream: bool) returns (output: string)
      requires Valid()
      modifies this
      ensures Valid() && doNotFlush == stream
      ensures var d0 := if old(doNotFlush) then old(decoder) else Initial;
              var seen0 := old(doNotFlush) && old(bomSeen);
              var (d1, ts) := Run(d0, input);
              var all := if stream then ts else ts + Finish(d1);
              && decoder == (if stream then d1 else Initial)
              && (bomSeen, output) == SkipBom(seen0, Replace(all))
    {
      if !doNotFlush {
        decoder, bomSeen := Initial, false;
      }
      doNotFlush := stream;
      var (d1, ts) := Run(decoder, input);
      var all := ts;
      if stream {
        decoder := d1;
      } else {
        all := ts + Finish(d1);
        decoder := Initial;
      }
      bomSeen, output := SkipBom(bomSeen, Replace(all)).0, SkipBom(bomSeen, Replace(all)).1;
    }
  }

  /** Decoding a prefix in streaming mode leaves the decoder exactly where
      decoding it as part of the whole input would. */
  lemma StreamPrefix(prefix: Bytes, chunk: Bytes)
    ensures Run(Run(Initial, prefix).0, chunk).0 == Run(Initial, prefix + chunk).0
    ensures Replace(Run(Initial, prefix + chunk).1)
            == Replace(Run(Initial, prefix).1) + Replace(Run(Run(Initial, prefix).0, chunk).1)
  {
    RunAppend(Initial, prefix, chunk);
    ReplaceAppend(Run(Initial, prefix).1, Run(Run(Initial, prefix).0, chunk).1);
  }

  /** One `decode(chunk, {stream: true})` call after a prefix has been
      streamed: the decoder ends where decoding prefix and chunk together
      would leave it, and the text so far is the decoding of both. */
  lemma StreamChunk(prefix: Bytes, chunk: Bytes)
    ensures var before := Run(Initial, prefix);
            var step := Run(before.0, chunk);
            var seen := SkipBom(false, Replace(before.1));
            var out := SkipBom(seen.0, Replace(step.1));
            && step.0 == Run(Initial, prefix + chunk).0
            && (out.0, seen.1 + out.1) == SkipBom(false, Replace(Run(Initial, prefix + chunk).1))
  {
    StreamPrefix(prefix, chunk);
    SkipBomAppend(false, Replace(Run(Initial, prefix).1), Replace(Run(Run(Initial, prefix).0, chunk).1));
  }

  /** The final `decode()` after the whole input has been streamed
      completes the one-shot decoding of that input. */
  lemma StreamFlush(all: Bytes)
    ensures var before := Run(Initial, all);
            var seen := SkipBom(false, Replace(before.1));
            var tail := Run(before.0, []);
            seen.1 + SkipBom(seen.0, Replace(tail.1 + Finish(tail.0))).1 == Decode(all)
  {
    var before := Run(Initial, all);
    assert Run(before.0, []) == (before.0, []);
    assert [] + Finish(before.0) == Finish(before.0);
    ReplaceAppend(before.1, Finish(before.0));
    SkipBomAppend(false, Replace(before.1), Replace(Finish(before.0)));
  }

  lemma {:induction false} ReplaceAppend(a: seq<Token>, b: seq<Token>)
    ensures Replace(a + b) == Replace(a) + Replace(b)
  {
    var l, r := Replace(a + b), Replace(a) + Replace(b);
    assert |l| == |r|;
    forall i | 0 <= i < |l| ensures l[i] == r[i] {
      if i < |a| { assert (a + b)[i] == a[i]; } else { assert (a + b)[i] == b[i - |a|]; }
    }
  }

  // ---------------------------------------------------------------------
  // Encoding (RFC 3629) and strict decoding
  // ---------------------------------------------------------------------

  /** The UTF-8 form of one scalar value (RFC 3629, section 3). */
  function EncodeScalar(c: char): (r: Bytes)
    ensures 1 <= |r| <= 4
  {
    // q1, q2, q3: the value shifted right by 6, 12 and 18 bits
    var n := c as int;
    var q1 := n / 0x40;
    var q2 := q1 / 0x40;
    var q3 := q2 / 0x40;
    if n < 0x80 then [n as byte]
    else if n < 0x800 then [(0xC0 + q1) as byte, (0x80 + n % 0x40) as byte]
    else if n < 0x10000 then
      [(0xE0 + q2) as byte, (0x80 + q1 % 0x40) as byte, (0x80 + n % 0x40) as byte]
    else
      [(0xF0 + q3) as byte, (0x80 + q2 % 0x40) as byte,
       (0x80 + q1 % 0x40) as byte, (0x80 + n % 0x40) as byte]
  }

  /** The UTF-8 bytes of a string: `unescape(encodeURIComponent(s))` read as bytes. */
  function Encode(s: string): Bytes
  {
    if s == [] then [] else Encode(s[..|s| - 1]) + EncodeScalar(s[|s| - 1])
  }

  /** A byte that only advances the decoder adds no output. */
  lemma RunQuiet(d: Decoder, b: byte, rest: Bytes)
    requires ValidState(d) && Handle(d, b).1 == []
    ensures Run(d, [b] + rest) == Run(Handle(d, b).0, rest)
  {
    RunCons(d, b, rest);
    var tail := Run(Handle(d, b).0, rest);
    assert [] + tail.1 == tail.1;
  }

  /** A byte that completes a sequence from `d` is decoded on its own. */
  lemma RunLast(d: Decoder, b: byte, c: char)
    requires ValidState(d) && Handle(d, b) == (Initial, [Scalar(c)])
    ensures Run(d, [b]) == (Initial, [Scalar(c)])
  {
    RunCons(d, b, []);
    assert [b] + [] == [b];
    assert Run(Initial, []) == (Initial, []);
    assert [Scalar(c)] + [] == [Scalar(c)];
  }

  /** The decoder reads the encoding of one scalar value back as exactly
      that value and returns to its initial state. */
  lemma DecodeScalar(c: char)
    ensures Run(Initial, EncodeScalar(c)) == (Initial, [Scalar(c)])
  {
    var n := c as int;
    if n < 0x80 {
      RunLast(Initial, EncodeScalar(c)[0], c);
    } else if n < 0x800 {
      DecodeTwo(c);
    } else if n < 0x10000 {
      DecodeThree(c);
    } else {
      DecodeFour(c);
    }
  }

  lemma DecodeTwo(c: char)
    requires 0x80 <= c as int < 0x800
    ensures Run(Initial, EncodeScalar(c)) == (Initial, [Scalar(c)])
  {
    var n := c as int;
    var e := EncodeScalar(c);
    var d1 := Decoder(n / 0x40, 0, 1, 0x80, 0xBF);
    assert Handle(Initial, e[0]) == (d1, []);
    assert e[1] as int % 0x40 == n % 0x40;
    RunLast(d1, e[1], c);
    RunQuiet(Initial, e[0], [e[1]]);
    assert e == [e[0]] + [e[1]];
  }

  /** A continuation byte in range that does not finish the sequence. */
  lemma HandleContinue(d: Decoder, b: byte)
    requires ValidState(d) && d.bytesNeeded != 0 && d.bytesSeen + 1 < d.bytesNeeded
    requires d.lowerBoundary <= b as int <= d.upperBoundary
    ensures Handle(d, b) == (Decoder(d.codePoint * 0x40 + b as int % 0x40, d.bytesSeen + 1, d.bytesNeeded, 0x80, 0xBF), [])
  {
  }

  /** A continuation byte in range that finishes the sequence. */
  lemma HandleComplete(d: Decoder, b: byte, c: char)
    requires ValidState(d) && d.bytesNeeded != 0 && d.bytesSeen + 1 == d.bytesNeeded
    requires d.lowerBoundary <= b as int <= d.upperBoundary
    requires c as int == d.codePoint * 0x40 + b as int % 0x40
    ensures Handle(d, b) == (Initial, [Scalar(c)])
  {
  }

  /** The decoder reads a well-formed three-byte sequence as one scalar value. */
  lemma RunThree(b0: byte, b1: byte, b2: byte, c: char)
    requires 0xE0 <= b0 <= 0xEF
    requires (if b0 == 0xE0 then 0xA0 else 0x80) <= b1 <= (if b0 == 0xED then 0x9F else 0xBF)
    requires 0x80 <= b2 <= 0xBF
    requires c as int == (b0 as int % 0x10 * 0x40 + b1 as int % 0x40) * 0x40 + b2 as int % 0x40
    ensures Run(Initial, [b0, b1, b2]) == (Initial, [Scalar(c)])
  {
    var d1 := Handle(Initial, b0).0;
    assert d1 == Decoder(b0 as int % 0x10, 0, 2, if b0 == 0xE0 then 0xA0 else 0x80, if b0 == 0xED then 0x9F else 0xBF);
    assert Handle(Initial, b0).1 == [];
    HandleContinue(d1, b1);
    var d2 := Handle(d1, b1).0;
    HandleComplete(d2, b2, c);
    RunLast(d2, b2, c);
    RunQuiet(d1, b1, [b2]);
    RunQuiet(Initial, b0, [b1] + [b2]);
    assert [b0, b1, b2] == [b0] + ([b1] + [b2]);
  }

  lemma DecodeThree(c: char)
    requires 0x800 <= c as int < 0x10000
    ensures Run(Initial, EncodeScalar(c)) == (Initial, [Scalar(c)])
  {
    var n := c as int;
    var e := EncodeScalar(c);
    var q1 := n / 0x40;
    var q2 := q1 / 0x40;
    assert 0 <= q2 <= 0xF;
    assert e[0] as int == 0xE0 + q2 && e[1] as int == 0x80 + q1 % 0x40 && e[2] as int == 0x80 + n % 0x40;
    assert q2 * 0x40 + q1 % 0x40 == q1 && q1 * 0x40 + n % 0x40 == n;
    RunThree(e[0], e[1], e[2], c);
    assert e == [e[0], e[1], e[2]];
  }

  /** The decoder reads a well-formed four-byte sequence as one scalar value. */
  lemma RunFour(b0: byte, b1: byte, b2: byte, b3: byte, c: char)
    requires 0xF0 <= b0 <= 0xF4
    requires (if b0 == 0xF0 then 0x90 else 0x80) <= b1 <= (if b0 == 0xF4 then 0x8F else 0xBF)
    requires 0x80 <= b2 <= 0xBF && 0x80 <= b3 <= 0xBF
    requires c as int == ((b0 as int % 0x8 * 0x40 + b1 as int % 0x40) * 0x40 + b2 as int % 0x40) * 0x40 + b3 as int % 0x40
    ensures Run(Initial, [b0, b1, b2, b3]) == (Initial, [Scalar(c)])
  {
    var d1 := Handle(Initial, b0).0;
    assert d1 == Decoder(b0 as int % 0x8, 0, 3, if b0 == 0xF0 then 0x90 else 0x80, if b0 == 0xF4 then 0x8F else 0xBF);
    assert Handle(Initial, b0).1 == [];
    HandleContinue(d1, b1);
    var d2 := Handle(d1, b1).0;
    HandleContinue(d2, b2);
    var d3 := Handle(d2, b2).0;
    HandleComplete(d3, b3, c);
    RunLast(d3, b3, c);
    RunQuiet(d2, b2, [b3]);
    RunQuiet(d1, b1, [b2] + [b3]);
    RunQuiet(Initial, b0, [b1] + ([b2] + [b3]));
    assert [b0, b1, b2, b3] == [b0] + ([b1] + ([b2] + [b3]));
  }

  lemma DecodeFour(c: char)
    requires 0x10000 <= c as int
    ensures Run(Initial, EncodeScalar(c)) == (Initial, [Scalar(c)])
  {
    var n := c as int;
    var e := EncodeScalar(c);
    var q1 := n / 0x40;
    var q2 := q1 / 0x40;
    var q3 := q2 / 0x40;
    assert q1 <= 0x43FF && q2 <= 0x10F && 0 <= q3 <= 4;
    assert e[0] as int == 0xF0 + q3 && e[1] as int == 0x80 + q2 % 0x40;
    assert e[2] as int == 0x80 + q1 % 0x40 && e[3] as int == 0x80 + n % 0x40;
    assert q3 * 0x40 + q2 % 0x40 == q2 && q2 * 0x40 + q1 % 0x40 == q1 && q1 * 0x40 + n % 0x40 == n;
    RunFour(e[0], e[1], e[2], e[3], c);
    assert e == [e[0], e[1], e[2], e[3]];
  }

  function Scalars(s: string): (ts: seq<Token>)
    ensures |ts| == |s| && forall i :: 0 <= i < |s| ==> ts[i] == Scalar(s[i])
  {
    if s == [] then [] else Scalars(s[..|s| - 1]) + [Scalar(s[|s| - 1])]
  }

  /** Decoding the UTF-8 encoding of any string yields its characters, with
      no error, and leaves the decoder in its initial state. */
  lemma {:induction false} RunEncode(s: string)
    ensures Run(Initial, Encode(s)) == (Initial, Scalars(s))
    decreases |s|
  {
    if s != [] {
      var p, c := s[..|s| - 1], s[|s| - 1];
      RunEncode(p);
      RunAppend(Initial, Encode(p), EncodeScalar(c));
      DecodeScalar(c);
    }
  }

  /** Strict decoding: the characters when the input is well-formed UTF-8,
      nothing when the decoder reports any error.  This is what
      `decodeURIComponent(escape(b))` computes for a binary string `b`
      (it throws `URIError` on the same inputs), keeping a byte order mark. */
  function DecodeStrict(bs: Bytes): (r: Option<string>)
    ensures r.Some? <==> Error !in Run(Initial, bs).1 + Finish(Run(Initial, bs).0)
    ensures r.Some? ==> Scalars(r.value) == Run(Initial, bs).1
  {
    var (d, ts) := Run(Initial, bs);
    var all := ts + Finish(d);
    if Error in all then None
    else
      var s := seq(|ts|, i requires 0 <= i < |ts| => ts[i].c);
      assert forall i | 0 <= i < |ts| :: all[i] == ts[i] && ts[i] != Error;
      assert Scalars(s) == ts;
      Some(s)
  }

  /** "UTF-8 decode" undoes "UTF-8 encode" for every string that does not
      start with a byte order mark (that one character is dropped). */
  lemma DecodeEncode(s: string)
    ensures s == [] || s[0] != ByteOrderMark ==> Decode(Encode(s)) == s
    ensures s != [] && s[0] == ByteOrderMark ==> Decode(Encode(s)) == s[1..]
  {
    RunEncode(s);
    var ts := Scalars(s);
    assert Finish(Initial) == [];
    assert ts + [] == ts;
    assert Replace(ts) == s;
  }

  /** Round trip of the add-in's config encoding at the UTF-8 layer. */
  lemma DecodeStrictEncode(s: string)
    ensures DecodeStrict(Encode(s)) == Some(s)
  {
    RunEncode(s);
    var ts := Scalars(s);
    assert Error !in ts;
    var r := DecodeStrict(Encode(s));
    assert Scalars(r.value) == Scalars(s);
    assert r.value == s;
  }
}
