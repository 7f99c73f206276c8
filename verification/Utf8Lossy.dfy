/**
 `String::from_utf8_lossy` as a byte automaton: each maximal prefix of an ill-formed sequence becomes one
 U+FFFD. crates/relix-cli/src/build.rs applies it to every chunk of a stream on its own.
 */
module Utf8Lossy {
  import opened Bytes

  /** Between characters, or inside one: its value so far, the next byte's range, the bytes missing. */
  datatype Decoder = Start | Inside(acc: nat, lo: int, hi: int, missing: nat)

  const REPLACEMENT: char := '\U{FFFD}'

  function ToChar(n: nat): char {
    if n < 0xD800 || 0xE000 <= n < 0x11_0000 then n as char else REPLACEMENT
  }

  /** A byte read between characters. */
  function Lead(b: byte): (Decoder, string) {
    if b < 0x80 then (Start, [ToChar(b)])
    else if 0xC2 <= b <= 0xDF then (Inside(b - 0xC0, 0x80, 0xBF, 1), "")
    else if b == 0xE0 then (Inside(0, 0xA0, 0xBF, 2), "")
    else if b == 0xED then (Inside(13, 0x80, 0x9F, 2), "")
    else if 0xE1 <= b <= 0xEF then (Inside(b - 0xE0, 0x80, 0xBF, 2), "")
    else if b == 0xF0 then (Inside(0, 0x90, 0xBF, 3), "")
    else if 0xF1 <= b <= 0xF3 then (Inside(b - 0xF0, 0x80, 0xBF, 3), "")
    else if b == 0xF4 then (Inside(4, 0x80, 0x8F, 3), "")
    else (Start, [REPLACEMENT])
  }

  /** The byte continues the character the decoder is inside of. */
  predicate Continues(d: Decoder, b: byte) {
    d.Inside? && d.lo <= b <= d.hi && 0x80 <= b <= 0xBF
  }

  function Step(d: Decoder, b: byte): (Decoder, string) {
    if Continues(d, b) then
      var acc := 64 * d.acc + (b - 0x80);
      if d.missing <= 1 then (Start, [ToChar(acc)]) else (Inside(acc, 0x80, 0xBF, d.missing - 1), "")
    else if d.Start? then Lead(b)
    else (Lead(b).0, [REPLACEMENT] + Lead(b).1)
  }

  function Flush(d: Decoder): string {
    if d.Start? then "" else [REPLACEMENT]
  }

  function Decode(d: Decoder, bytes: seq<byte>): string
    decreases |bytes|
  {
    if bytes == [] then Flush(d)
    else Step(d, bytes[0]).1 + Decode(Step(d, bytes[0]).0, bytes[1..])
  }

  function EndOf(d: Decoder, bytes: seq<byte>): Decoder
    decreases |bytes|
  {
    if bytes == [] then d else EndOf(Step(d, bytes[0]).0, bytes[1..])
  }

  function Lossy(bytes: seq<byte>): string {
    Decode(Start, bytes)
  }

  // ---- Cutting a byte string ----

  /** A cut between `a` and `b` falls outside every character. */
  predicate CleanCut(a: seq<byte>, b: seq<byte>) {
    b == [] || !Continues(EndOf(Start, a), b[0])
  }

  /** Giving up the character inside of which a cut falls is right exactly when the next byte does not continue it. */
  lemma FlushedHere(d: Decoder, b: seq<byte>)
    requires b == [] || !Continues(d, b[0])
    ensures Flush(d) + Decode(Start, b) == Decode(d, b)
  {
  }

  lemma {:induction false} CleanFrom(d: Decoder, a: seq<byte>, b: seq<byte>)
    requires b == [] || !Continues(EndOf(d, a), b[0])
    ensures Decode(d, a) + Lossy(b) == Decode(d, a + b)
    decreases |a|
  {
    if a == [] {
      assert a + b == b;
      FlushedHere(d, b);
    } else {
      assert (a + b)[1..] == a[1..] + b;
      CleanFrom(Step(d, a[0]).0, a[1..], b);
    }
  }

  /** Being inside a character saves at most one output character. */
  lemma {:induction false} InsideAtMostOne(d: Decoder, b: seq<byte>)
    requires d.Inside?
    ensures |Decode(d, b)| <= 1 + |Lossy(b)|
    decreases |b|
  {
    if b != [] && Continues(d, b[0]) {
      var d' := Step(d, b[0]).0;
      assert Step(Start, b[0]) == (Start, [REPLACEMENT]);
      if d'.Inside? {
        InsideAtMostOne(d', b[1..]);
      }
    } else {
      FlushedHere(d, b);
    }
  }

  lemma {:induction false} UncleanFrom(d: Decoder, a: seq<byte>, b: seq<byte>)
    requires b != [] && Continues(EndOf(d, a), b[0])
    ensures |Decode(d, a + b)| < |Decode(d, a)| + |Lossy(b)|
    decreases |a|
  {
    if a == [] {
      assert a + b == b;
      var d' := Step(d, b[0]).0;
      assert Step(Start, b[0]) == (Start, [REPLACEMENT]);
      if d'.Inside? {
        InsideAtMostOne(d', b[1..]);
      }
    } else {
      assert (a + b)[1..] == a[1..] + b;
      UncleanFrom(Step(d, a[0]).0, a[1..], b);
    }
  }

  /** Decoding two pieces separately is decoding them together exactly when the cut is clean. */
  lemma CutExactly(a: seq<byte>, b: seq<byte>)
    ensures Lossy(a) + Lossy(b) == Lossy(a + b) <==> CleanCut(a, b)
    ensures |Lossy(a + b)| <= |Lossy(a)| + |Lossy(b)|
    ensures !CleanCut(a, b) ==> |Lossy(a + b)| < |Lossy(a)| + |Lossy(b)|
  {
    if CleanCut(a, b) {
      CleanFrom(Start, a, b);
    } else {
      UncleanFrom(Start, a, b);
    }
  }

  // ---- Cutting into any number of chunks ----

  function Concat(chunks: seq<seq<byte>>): seq<byte> {
    if chunks == [] then [] else chunks[0] + Concat(chunks[1..])
  }

  /** What the reader decodes: every chunk on its own. */
  function DecodedChunks(chunks: seq<seq<byte>>): seq<string> {
    if chunks == [] then [] else [Lossy(chunks[0])] + DecodedChunks(chunks[1..])
  }

  function ConcatText(texts: seq<string>): string {
    if texts == [] then "" else texts[0] + ConcatText(texts[1..])
  }

  predicate CleanChunks(chunks: seq<seq<byte>>) {
    chunks == [] || (CleanCut(chunks[0], Concat(chunks[1..])) && CleanChunks(chunks[1..]))
  }

  /** The decoded chunks make up the decoded stream exactly when no cut falls inside a character. */
  lemma {:induction false} ChunksExactly(chunks: seq<seq<byte>>)
    ensures ConcatText(DecodedChunks(chunks)) == Lossy(Concat(chunks)) <==> CleanChunks(chunks)
    ensures |Lossy(Concat(chunks))| <= |ConcatText(DecodedChunks(chunks))|
    ensures !CleanChunks(chunks) ==> |Lossy(Concat(chunks))| < |ConcatText(DecodedChunks(chunks))|
  {
    if chunks != [] {
      ChunksExactly(chunks[1..]);
      CutExactly(chunks[0], Concat(chunks[1..]));
      assert DecodedChunks(chunks)[1..] == DecodedChunks(chunks[1..]);
    }
  }

  // ---- Well-formed text ----

  function EncodeChar(c: char): seq<byte> {
    var n := c as int;
    if n < 0x80 then [n]
    else if n < 0x800 then [0xC0 + n / 64, 0x80 + n % 64]
    else if n < 0x1_0000 then [0xE0 + n / 4096, 0x80 + n / 64 % 64, 0x80 + n % 64]
    else [0xF0 + n / 262144, 0x80 + n / 4096 % 64, 0x80 + n / 64 % 64, 0x80 + n % 64]
  }

  function Encode(s: string): seq<byte> {
    if s == "" then [] else EncodeChar(s[0]) + Encode(s[1..])
  }

  lemma DecodeCons(d: Decoder, b: byte, rest: seq<byte>)
    ensures Decode(d, [b] + rest) == Step(d, b).1 + Decode(Step(d, b).0, rest)
  {
    assert ([b] + rest)[1..] == rest;
  }

  /** A byte in the middle of a character moves its six bits into the value. */
  lemma DecodeMiddle(acc: nat, lo: int, hi: int, missing: nat, q: nat, rest: seq<byte>)
    requires q < 64 && lo <= 0x80 + q <= hi && missing > 1
    ensures Decode(Inside(acc, lo, hi, missing), [0x80 + q] + rest) ==
            Decode(Inside(64 * acc + q, 0x80, 0xBF, missing - 1), rest)
  {
    DecodeCons(Inside(acc, lo, hi, missing), 0x80 + q, rest);
  }

  /** The last byte of a character completes its value. */
  lemma DecodeLast(acc: nat, q: nat, rest: seq<byte>)
    requires q < 64
    ensures Decode(Inside(acc, 0x80, 0xBF, 1), [0x80 + q] + rest) == [ToChar(64 * acc + q)] + Lossy(rest)
  {
    DecodeCons(Inside(acc, 0x80, 0xBF, 1), 0x80 + q, rest);
  }

  /** The last two bytes. */
  lemma DecodeTwoMore(acc: nat, q: nat, q': nat, rest: seq<byte>)
    requires q < 64 && q' < 64
    ensures Decode(Inside(acc, 0x80, 0xBF, 2), [0x80 + q] + ([0x80 + q'] + rest)) ==
            [ToChar(64 * (64 * acc + q) + q')] + Lossy(rest)
  {
    DecodeMiddle(acc, 0x80, 0xBF, 2, q, [0x80 + q'] + rest);
    DecodeLast(64 * acc + q, q', rest);
  }

  lemma DecodeTwo(q0: nat, q1: nat, rest: seq<byte>)
    requires 2 <= q0 < 32 && q1 < 64
    ensures Lossy([0xC0 + q0] + ([0x80 + q1] + rest)) == [ToChar(64 * q0 + q1)] + Lossy(rest)
  {
    DecodeCons(Start, 0xC0 + q0, [0x80 + q1] + rest);
    DecodeLast(q0, q1, rest);
  }

  /** The first two bytes of three: not an overlong form, not a surrogate. */
  lemma LeadOfThree(q0: nat, q1: nat, rest: seq<byte>)
    requires q0 < 16 && q1 < 64
    requires 32 <= 64 * q0 + q1 && !(0x360 <= 64 * q0 + q1 < 0x380)
    ensures Lossy([0xE0 + q0] + ([0x80 + q1] + rest)) == Decode(Inside(64 * q0 + q1, 0x80, 0xBF, 1), rest)
  {
    DecodeCons(Start, 0xE0 + q0, [0x80 + q1] + rest);
    var d := Lead(0xE0 + q0).0;
    DecodeMiddle(q0, d.lo, d.hi, 2, q1, rest);
  }

  /** The first two bytes of four: not an overlong form, not beyond the last code point. */
  lemma LeadOfFour(q0: nat, q1: nat, rest: seq<byte>)
    requires q1 < 64 && 16 <= 64 * q0 + q1 < 0x110
    ensures Lossy([0xF0 + q0] + ([0x80 + q1] + rest)) == Decode(Inside(64 * q0 + q1, 0x80, 0xBF, 2), rest)
  {
    DecodeCons(Start, 0xF0 + q0, [0x80 + q1] + rest);
    var d := Lead(0xF0 + q0).0;
    DecodeMiddle(q0, d.lo, d.hi, 3, q1, rest);
  }

  /** The payloads of the bytes of a character make up its value. */
  lemma Payloads(n: nat)
    ensures 64 * (n / 64) + n % 64 == n
    ensures 64 * (n / 4096) + n / 64 % 64 == n / 64
    ensures 64 * (n / 262144) + n / 4096 % 64 == n / 4096
  {
  }

  lemma DecodeThree(c: char, rest: seq<byte>)
    requires 0x800 <= (c as int) < 0x1_0000
    ensures Lossy(EncodeChar(c) + rest) == [c] + Lossy(rest)
  {
    var n := c as int;
    var q0, q1, q2 := n / 4096, n / 64 % 64, n % 64;
    Payloads(n);
    ThreeBytes(0xE0 + q0, 0x80 + q1, 0x80 + q2, rest);
    LeadOfThree(q0, q1, [0x80 + q2] + rest);
    DecodeLast(64 * q0 + q1, q2, rest);
  }

  lemma ThreeBytes(a: byte, b: byte, c: byte, rest: seq<byte>)
    ensures [a, b, c] + rest == [a] + ([b] + ([c] + rest))
  {
  }

  lemma FourBytes(a: byte, b: byte, c: byte, d: byte, rest: seq<byte>)
    ensures [a, b, c, d] + rest == [a] + ([b] + ([c] + ([d] + rest)))
  {
  }

  lemma DecodeFour(c: char, rest: seq<byte>)
    requires 0x1_0000 <= (c as int)
    ensures Lossy(EncodeChar(c) + rest) == [c] + Lossy(rest)
  {
    var n := c as int;
    var q0, q1, q2, q3 := n / 262144, n / 4096 % 64, n / 64 % 64, n % 64;
    Payloads(n);
    FourBytes(0xF0 + q0, 0x80 + q1, 0x80 + q2, 0x80 + q3, rest);
    LeadOfFour(q0, q1, [0x80 + q2] + ([0x80 + q3] + rest));
    DecodeTwoMore(64 * q0 + q1, q2, q3, rest);
  }

  lemma DecodeEncodedChar(c: char, rest: seq<byte>)
    ensures Lossy(EncodeChar(c) + rest) == [c] + Lossy(rest)
  {
    var n := c as int;
    if n < 0x80 {
      DecodeCons(Start, n, rest);
    } else if n < 0x800 {
      Payloads(n);
      assert EncodeChar(c) + rest == [0xC0 + n / 64] + ([0x80 + n % 64] + rest);
      DecodeTwo(n / 64, n % 64, rest);
    } else if n < 0x1_0000 {
      DecodeThree(c, rest);
    } else {
      DecodeFour(c, rest);
    }
  }

  /** On well-formed UTF-8 nothing is lost: decoding inverts encoding. */
  lemma {:induction false} LossyInvertsEncode(s: string)
    ensures Lossy(Encode(s)) == s
  {
    if s != "" {
      DecodeEncodedChar(s[0], Encode(s[1..]));
      LossyInvertsEncode(s[1..]);
    }
  }

  lemma {:induction false} DecodeEncodedPrefix(s: string, rest: seq<byte>)
    ensures Lossy(Encode(s) + rest) == s + Lossy(rest)
  {
    if s == "" {
      assert Encode(s) + rest == rest;
    } else {
      var c, tail := s[0], Encode(s[1..]);
      DecodeEncodedPrefix(s[1..], rest);
      BytesRegroup(EncodeChar(c), tail, rest);
      DecodeEncodedChar(c, tail + rest);
      TextRegroup(c, s[1..], Lossy(rest));
      assert s == [c] + s[1..];
    }
  }

  lemma BytesRegroup(a: seq<byte>, b: seq<byte>, c: seq<byte>)
    ensures (a + b) + c == a + (b + c)
  {
  }

  lemma TextRegroup(c: char, s: string, t: string)
    ensures ([c] + s) + t == [c] + (s + t)
  {
  }

  function EncodedChunks(texts: seq<string>): seq<seq<byte>> {
    if texts == [] then [] else [Encode(texts[0])] + EncodedChunks(texts[1..])
  }

  /** Chunks that each encode whole characters have only clean cuts, so they decode to their texts. */
  lemma {:induction false} WholeCharacterChunks(texts: seq<string>)
    ensures CleanChunks(EncodedChunks(texts))
    ensures Lossy(Concat(EncodedChunks(texts))) == ConcatText(texts)
  {
    if texts != [] {
      var chunks := EncodedChunks(texts);
      assert chunks[1..] == EncodedChunks(texts[1..]);
      WholeCharacterChunks(texts[1..]);
      var rest := Concat(chunks[1..]);
      DecodeEncodedPrefix(texts[0], rest);
      LossyInvertsEncode(texts[0]);
      CutExactly(chunks[0], rest);
    }
  }
}
