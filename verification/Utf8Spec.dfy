/**
 What lossy decoding is, said by characters instead of automaton states: the encoding of a character reads as
 that character; where no character stands, the longest beginning of one, or else a single byte, reads as one
 U+FFFD. This is the substitution of maximal subparts of section 3.9 of the Unicode Standard.
 */
module Utf8Spec {
  import opened Bytes
  import opened Utf8Lossy

  /** The bytes begin the encoding of some character and do not end it. */
  ghost predicate Begun(p: seq<byte>) {
    exists c :: |p| < |EncodeChar(c)| && EncodeChar(c)[..|p|] == p
  }

  ghost predicate HasWhole(bytes: seq<byte>) {
    exists c :: EncodeChar(c) <= bytes
  }

  /** `n` bytes begin a character, and one more byte does not go on with one. */
  ghost predicate LongestBegun(bytes: seq<byte>, n: nat) {
    n <= |bytes| && Begun(bytes[..n]) && (n < |bytes| ==> !Begun(bytes[..n + 1]))
  }

  // ---- The shapes of encodings ----

  predicate Tail(b: byte) { 0x80 <= b <= 0xBF }

  /** The second byte of three: not an overlong form, not a surrogate. */
  predicate SecondOfThree(a: byte, b: byte) {
    0xE0 <= a <= 0xEF && Tail(b) && (a == 0xE0 ==> b >= 0xA0) && (a == 0xED ==> b <= 0x9F)
  }

  /** The second byte of four: not an overlong form, not beyond the last code point. */
  predicate SecondOfFour(a: byte, b: byte) {
    0xF0 <= a <= 0xF4 && Tail(b) && (a == 0xF0 ==> b >= 0x90) && (a == 0xF4 ==> b <= 0x8F)
  }

  predicate TwoWhole(a: byte, b: byte) { 0xC2 <= a <= 0xDF && Tail(b) }

  predicate ThreeWhole(a: byte, b: byte, c: byte) { SecondOfThree(a, b) && Tail(c) }

  predicate FourWhole(a: byte, b: byte, c: byte, d: byte) { SecondOfFour(a, b) && Tail(c) && Tail(d) }

  predicate IsWhole(s: seq<byte>) {
    || (|s| == 1 && s[0] < 0x80)
    || (|s| == 2 && TwoWhole(s[0], s[1]))
    || (|s| == 3 && ThreeWhole(s[0], s[1], s[2]))
    || (|s| == 4 && FourWhole(s[0], s[1], s[2], s[3]))
  }

  lemma EncodingIsWhole(c: char)
    ensures IsWhole(EncodeChar(c))
  {
    var n := c as int;
    Payloads(n);
    if 0x800 <= n < 0x1_0000 {
      ThreeRange(n);
    } else if n >= 0x1_0000 {
      FourRange(n);
    }
  }

  lemma ThreeRange(n: nat)
    requires 0x800 <= n < 0x1_0000 && !(0xD800 <= n < 0xE000)
    ensures SecondOfThree(0xE0 + n / 4096, 0x80 + n / 64 % 64)
  {
    var q := n / 64;
    assert n / 4096 == q / 64 && q == 64 * (q / 64) + q % 64;
    assert 32 <= q < 1024 && !(0x360 <= q < 0x380);
  }

  lemma FourRange(n: nat)
    requires 0x1_0000 <= n < 0x11_0000
    ensures SecondOfFour(0xF0 + n / 262144, 0x80 + n / 4096 % 64)
  {
    var q := n / 4096;
    assert n / 262144 == q / 64 && q == 64 * (q / 64) + q % 64;
    assert 16 <= q < 272;
  }

  /** The character that whole bytes encode. */
  function CharOf(s: seq<byte>): (c: char)
    requires IsWhole(s)
  {
    var a: int := s[0];
    if |s| == 1 then a as char
    else
      var b: int := s[1];
      if |s| == 2 then ToChar(64 * (a - 0xC0) + (b - 0x80))
      else
        var c: int := s[2];
        if |s| == 3 then ToChar(64 * (64 * (a - 0xE0) + (b - 0x80)) + (c - 0x80))
        else
          var d: int := s[3];
          ToChar(64 * (64 * (64 * (a - 0xF0) + (b - 0x80)) + (c - 0x80)) + (d - 0x80))
  }

  lemma TwoIsEncoding(p: nat, q: nat)
    requires 2 <= p < 32 && q < 64
    ensures EncodeChar(ToChar(64 * p + q)) == [0xC0 + p, 0x80 + q]
  {
    var n := 64 * p + q;
    assert n / 64 == p && n % 64 == q;
  }

  lemma ThreeIsEncoding(p: nat, q: nat, r: nat)
    requires p < 16 && q < 64 && r < 64 && 32 <= 64 * p + q && !(0x360 <= 64 * p + q < 0x380)
    ensures EncodeChar(ToChar(64 * (64 * p + q) + r)) == [0xE0 + p, 0x80 + q, 0x80 + r]
  {
    var n := 64 * (64 * p + q) + r;
    assert n / 64 == 64 * p + q && n % 64 == r;
    assert n / 4096 == p && n / 64 % 64 == q;
  }

  lemma FourIsEncoding(p: nat, q: nat, r: nat, t: nat)
    requires q < 64 && r < 64 && t < 64 && 16 <= 64 * p + q < 0x110
    ensures EncodeChar(ToChar(64 * (64 * (64 * p + q) + r) + t)) == [0xF0 + p, 0x80 + q, 0x80 + r, 0x80 + t]
  {
    var m := 64 * (64 * p + q) + r;
    var n := 64 * m + t;
    assert n / 64 == m && n % 64 == t;
    assert m / 64 == 64 * p + q && m % 64 == r;
    assert n / 4096 == 64 * p + q && n / 4096 % 64 == q && n / 262144 == p;
  }

  lemma WholeIsEncoding(s: seq<byte>)
    requires IsWhole(s)
    ensures EncodeChar(CharOf(s)) == s
  {
    if |s| == 1 {
      assert s == [s[0]];
    } else if |s| == 2 {
      TwoIsEncoding(s[0] - 0xC0, s[1] - 0x80);
      assert s == [s[0], s[1]];
    } else if |s| == 3 {
      ThreeIsEncoding(s[0] - 0xE0, s[1] - 0x80, s[2] - 0x80);
      assert s == [s[0], s[1], s[2]];
    } else {
      FourIsEncoding(s[0] - 0xF0, s[1] - 0x80, s[2] - 0x80, s[3] - 0x80);
      assert s == [s[0], s[1], s[2], s[3]];
    }
  }

  // ---- Beginnings ----

  predicate IsBegun(p: seq<byte>) {
    || p == []
    || (|p| == 1 && 0xC2 <= p[0] <= 0xF4)
    || (|p| == 2 && (SecondOfThree(p[0], p[1]) || SecondOfFour(p[0], p[1])))
    || (|p| == 3 && SecondOfFour(p[0], p[1]) && Tail(p[2]))
  }

  /** One way to end what is begun. */
  function Ended(p: seq<byte>): seq<byte>
    requires IsBegun(p)
  {
    if p == [] then [0]
    else if |p| == 1 then
      if p[0] <= 0xDF then p + [0x80]
      else if p[0] <= 0xEF then p + [if p[0] == 0xE0 then 0xA0 else 0x80, 0x80]
      else p + [if p[0] == 0xF0 then 0x90 else 0x80, 0x80, 0x80]
    else if |p| == 2 then (if p[0] <= 0xEF then p + [0x80] else p + [0x80, 0x80])
    else p + [0x80]
  }

  lemma BegunExactly(p: seq<byte>)
    ensures Begun(p) <==> IsBegun(p)
  {
    if IsBegun(p) {
      var s := Ended(p);
      assert IsWhole(s) && |p| < |s| && s[..|p|] == p;
      WholeIsEncoding(s);
    }
    if c :| |p| < |EncodeChar(c)| && EncodeChar(c)[..|p|] == p {
      EncodingIsWhole(c);
      var s := EncodeChar(c);
      assert forall i | 0 <= i < |p| :: p[i] == s[i];
    }
  }

  lemma WholeExactly(bytes: seq<byte>)
    ensures HasWhole(bytes) <==> exists k | 1 <= k <= 4 && k <= |bytes| :: IsWhole(bytes[..k])
  {
    if c :| EncodeChar(c) <= bytes {
      EncodingIsWhole(c);
      assert bytes[..|EncodeChar(c)|] == EncodeChar(c);
    }
    if k :| 1 <= k <= 4 && k <= |bytes| && IsWhole(bytes[..k]) {
      WholeIsEncoding(bytes[..k]);
    }
  }

  // ---- Reading ----

  /** The decoder emits nothing along these bytes. */
  predicate Silent(d: Decoder, p: seq<byte>)
    decreases |p|
  {
    p == [] || (Step(d, p[0]).1 == "" && Silent(Step(d, p[0]).0, p[1..]))
  }

  lemma {:induction false} SilentReads(d: Decoder, p: seq<byte>, rest: seq<byte>)
    requires Silent(d, p)
    ensures Decode(d, p + rest) == Decode(EndOf(d, p), rest)
    decreases |p|
  {
    if p == [] {
      assert p + rest == rest;
    } else {
      assert p + rest == [p[0]] + (p[1..] + rest);
      DecodeCons(d, p[0], p[1..] + rest);
      SilentReads(Step(d, p[0]).0, p[1..], rest);
    }
  }

  /** Inside a character, with this many bytes to come, none of which is special. */
  predicate Waits(d: Decoder, missing: nat) {
    d.Inside? && d.lo == 0x80 && d.hi == 0xBF && d.missing == missing
  }

  lemma AfterCons(d: Decoder, a: byte, rest: seq<byte>)
    ensures Silent(d, [a] + rest) <==> Step(d, a).1 == "" && Silent(Step(d, a).0, rest)
    ensures EndOf(d, [a] + rest) == EndOf(Step(d, a).0, rest)
  {
    assert ([a] + rest)[1..] == rest;
  }

  lemma AfterLast(d: Decoder, a: byte)
    ensures Silent(d, [a]) <==> Step(d, a).1 == ""
    ensures EndOf(d, [a]) == Step(d, a).0
  {
    AfterCons(d, a, []);
    assert [a] == [a] + [];
  }

  lemma AfterTwo(a: byte, b: byte)
    requires SecondOfThree(a, b) || SecondOfFour(a, b)
    ensures Silent(Start, [a, b]) && Waits(EndOf(Start, [a, b]), if a <= 0xEF then 1 else 2)
  {
    assert [a, b] == [a] + [b];
    AfterCons(Start, a, [b]);
    AfterLast(Lead(a).0, b);
  }

  lemma AfterThree(a: byte, b: byte, c: byte)
    requires SecondOfFour(a, b) && Tail(c)
    ensures Silent(Start, [a, b, c]) && Waits(EndOf(Start, [a, b, c]), 1)
  {
    assert [a, b, c] == [a] + [b, c] && [b, c] == [b] + [c];
    AfterCons(Start, a, [b, c]);
    AfterCons(Lead(a).0, b, [c]);
    AfterLast(Step(Lead(a).0, b).0, c);
  }

  /** Reading a beginning leaves the decoder inside a character and emits nothing. */
  lemma ReadsBegun(p: seq<byte>)
    requires IsBegun(p) && p != []
    ensures Silent(Start, p) && EndOf(Start, p).Inside?
    ensures |p| == 1 ==> EndOf(Start, p) == Lead(p[0]).0
    ensures |p| == 2 ==> Waits(EndOf(Start, p), if p[0] <= 0xEF then 1 else 2)
    ensures |p| == 3 ==> Waits(EndOf(Start, p), 1)
  {
    if |p| == 1 {
      assert p == [p[0]];
      AfterLast(Start, p[0]);
    } else if |p| == 2 {
      assert p == [p[0], p[1]];
      AfterTwo(p[0], p[1]);
    } else {
      assert p == [p[0], p[1], p[2]];
      AfterThree(p[0], p[1], p[2]);
    }
  }

  /** The decoder goes on exactly with a byte that goes on with or ends a character. */
  lemma ContinuesExactly(p: seq<byte>, b: byte)
    requires IsBegun(p) && p != []
    ensures Continues(EndOf(Start, p), b) <==> IsBegun(p + [b]) || IsWhole(p + [b])
  {
    ReadsBegun(p);
  }

  /** Where no character stands, the longest beginning of one, or else one byte, reads as one replacement. */
  lemma BrokenReads(bytes: seq<byte>, n: nat)
    requires bytes != [] && !HasWhole(bytes) && LongestBegun(bytes, n)
    ensures Lossy(bytes) == [REPLACEMENT] + Lossy(bytes[if n == 0 then 1 else n..])
  {
    BegunExactly(bytes[..n]);
    WholeExactly(bytes);
    if n == 0 {
      BegunExactly(bytes[..1]);
      assert !IsWhole(bytes[..1]);
      DecodeCons(Start, bytes[0], bytes[1..]);
      assert bytes == [bytes[0]] + bytes[1..];
    } else {
      var p, rest := bytes[..n], bytes[n..];
      assert bytes == p + rest;
      ReadsBegun(p);
      SilentReads(Start, p, rest);
      if rest != [] {
        assert bytes[..n + 1] == p + [rest[0]];
        BegunExactly(bytes[..n + 1]);
        ContinuesExactly(p, rest[0]);
        assert |p| < 4;
        assert !IsWhole(bytes[..n + 1]);
      }
      FlushedHere(EndOf(Start, p), rest);
    }
  }

  /** Lossy decoding, one character at a time. */
  lemma LossyMeans(bytes: seq<byte>)
    requires bytes != []
    ensures forall c | EncodeChar(c) <= bytes :: Lossy(bytes) == [c] + Lossy(bytes[|EncodeChar(c)|..])
    ensures !HasWhole(bytes) ==> forall n | LongestBegun(bytes, n) ::
              Lossy(bytes) == [REPLACEMENT] + Lossy(bytes[if n == 0 then 1 else n..])
  {
    forall c | EncodeChar(c) <= bytes ensures Lossy(bytes) == [c] + Lossy(bytes[|EncodeChar(c)|..]) {
      var rest := bytes[|EncodeChar(c)|..];
      assert bytes == EncodeChar(c) + rest;
      DecodeEncodedChar(c, rest);
    }
    if !HasWhole(bytes) {
      forall n | LongestBegun(bytes, n)
        ensures Lossy(bytes) == [REPLACEMENT] + Lossy(bytes[if n == 0 then 1 else n..])
      {
        BrokenReads(bytes, n);
      }
    }
  }

  /** There is always a longest beginning, of at most three bytes, so the two cases say all. */
  lemma LongestExists(bytes: seq<byte>) returns (n: nat)
    ensures LongestBegun(bytes, n) && n <= 3
  {
    n := 0;
    BegunExactly([]);
    assert bytes[..0] == [];
    while n < |bytes| && IsBegun(bytes[..n + 1])
      invariant n <= |bytes| && IsBegun(bytes[..n]) && Begun(bytes[..n])
      decreases |bytes| - n
    {
      n := n + 1;
      BegunExactly(bytes[..n]);
    }
    if n < |bytes| {
      BegunExactly(bytes[..n + 1]);
    }
  }
}
