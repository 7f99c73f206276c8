/**
 Percent-encoding of path segments, as in crates/relix-cli/src/approval.rs and build.rs: sections 2.1 and
 2.3 of RFC 3986.
 */
module PercentEncoding {
  import opened Bytes
  import opened Options

  predicate IsAlphanumeric(b: byte) {
    0x30 <= b <= 0x39 || 0x41 <= b <= 0x5A || 0x61 <= b <= 0x7A
  }

  /** The unreserved characters of section 2.3: letters, digits, '-', '.', '_' and '~'. */
  predicate IsUnreserved(b: byte) {
    IsAlphanumeric(b) || b == 0x2D || b == 0x5F || b == 0x2E || b == 0x7E
  }

  function HexDigit(n: nat): char
    requires n < 16
  {
    if n < 10 then '0' + (n as char) else 'A' + ((n - 10) as char)
  }

  function EncodeByte(b: byte): string {
    if IsUnreserved(b) then [b as char] else ['%', HexDigit(b / 16), HexDigit(b % 16)]
  }

  function Encode(bytes: seq<byte>): string {
    if bytes == [] then "" else EncodeByte(bytes[0]) + Encode(bytes[1..])
  }

  lemma Uncons(out: string, bytes: seq<byte>, i: nat)
    requires i < |bytes|
    ensures out + Encode(bytes[i..]) == (out + EncodeByte(bytes[i])) + Encode(bytes[i + 1..])
  {
    assert bytes[i..][0] == bytes[i] && bytes[i..][1..] == bytes[i + 1..];
  }

  /** The byte loop. */
  method UrlEncode(bytes: seq<byte>) returns (out: string)
    ensures out == Encode(bytes)
  {
    out := "";
    for i := 0 to |bytes|
      invariant out + Encode(bytes[i..]) == Encode(bytes)
    {
      Uncons(out, bytes, i);
      if IsUnreserved(bytes[i]) {
        out := out + [bytes[i] as char];
      } else {
        out := out + ['%', HexDigit(bytes[i] / 16), HexDigit(bytes[i] % 16)];
      }
    }
  }

  /** The unreserved characters, one by one; every other byte is a percent sign and two upper-case hex digits. */
  lemma EncodeByteMeans(b: byte)
    ensures var c := b as char;
            EncodeByte(b) ==
              if 'A' <= c <= 'Z' || 'a' <= c <= 'z' || '0' <= c <= '9' || c == '-' || c == '.' || c == '_' || c == '~'
              then [c]
              else ['%', "0123456789ABCDEF"[b / 16], "0123456789ABCDEF"[b % 16]]
  {
  }

  // ---- A decoder ----

  function HexValue(c: char): Option<nat> {
    if '0' <= c <= '9' then Some((c as int) - ('0' as int))
    else if 'A' <= c <= 'F' then Some((c as int) - ('A' as int) + 10)
    else None
  }

  /** Reads unreserved characters and upper-case triplets; anything else is malformed. */
  function Decode(s: string): Option<seq<byte>> {
    if s == "" then Some([])
    else if s[0] == '%' then
      if |s| < 3 || HexValue(s[1]).None? || HexValue(s[2]).None? then None
      else
        var rest := Decode(s[3..]);
        if rest.None? then None
        else Some([16 * HexValue(s[1]).value + HexValue(s[2]).value] + rest.value)
    else if (s[0] as int) < 256 && IsUnreserved(s[0] as int) then
      var rest := Decode(s[1..]);
      if rest.None? then None else Some([s[0] as int] + rest.value)
    else None
  }

  lemma DecodeEncodedByte(b: byte, rest: string)
    requires Decode(rest).Some?
    ensures Decode(EncodeByte(b) + rest) == Some([b] + Decode(rest).value)
  {
    var s := EncodeByte(b) + rest;
    if IsUnreserved(b) {
      assert s[1..] == rest;
    } else {
      var high, low := HexDigit(b / 16), HexDigit(b % 16);
      assert s == ['%', high, low] + rest;
    }
  }

  /** Decoding inverts encoding on every byte string. */
  lemma {:induction false} DecodeInvertsEncode(bytes: seq<byte>)
    ensures Decode(Encode(bytes)) == Some(bytes)
  {
    if bytes != [] {
      DecodeInvertsEncode(bytes[1..]);
      DecodeEncodedByte(bytes[0], Encode(bytes[1..]));
      assert bytes == [bytes[0]] + bytes[1..];
    }
  }

  /** No two byte strings encode alike. */
  lemma EncodeInjective(a: seq<byte>, b: seq<byte>)
    requires Encode(a) == Encode(b)
    ensures a == b
  {
    DecodeInvertsEncode(a);
    DecodeInvertsEncode(b);
  }

  lemma {:induction false} EncodeConcat(a: seq<byte>, b: seq<byte>)
    ensures Encode(a + b) == Encode(a) + Encode(b)
  {
    if a == [] {
      assert a + b == b;
    } else {
      assert (a + b)[1..] == a[1..] + b;
      EncodeConcat(a[1..], b);
    }
  }

  /** Only unreserved characters and upper-case triplets are emitted, so encoding is the decoder's exact inverse. */
  lemma {:induction false} EncodeInvertsDecode(s: string)
    requires Decode(s).Some? && NoEscapedUnreserved(s)
    ensures Encode(Decode(s).value) == s
  {
    if s != "" {
      if s[0] == '%' {
        var h, l := HexValue(s[1]).value, HexValue(s[2]).value;
        EncodeInvertsDecode(s[3..]);
        assert (16 * h + l) / 16 == h && (16 * h + l) % 16 == l;
        assert HexDigit(h) == s[1] && HexDigit(l) == s[2];
        assert s == ['%', s[1], s[2]] + s[3..];
        assert Decode(s).value[1..] == Decode(s[3..]).value;
      } else {
        EncodeInvertsDecode(s[1..]);
        assert s == [s[0]] + s[1..];
        assert Decode(s).value[1..] == Decode(s[1..]).value;
      }
    }
  }

  /** No triplet stands for an unreserved character, which section 2.3 asks of producers. */
  predicate NoEscapedUnreserved(s: string) {
    if s == "" then true
    else if s[0] == '%' then
      |s| >= 3 && HexValue(s[1]).Some? && HexValue(s[2]).Some? &&
      !IsUnreserved(16 * HexValue(s[1]).value + HexValue(s[2]).value) && NoEscapedUnreserved(s[3..])
    else NoEscapedUnreserved(s[1..])
  }

  lemma {:induction false} EncodedIsNormal(bytes: seq<byte>)
    ensures NoEscapedUnreserved(Encode(bytes))
  {
    if bytes != [] {
      var b, rest := bytes[0], Encode(bytes[1..]);
      EncodedIsNormal(bytes[1..]);
      var s := EncodeByte(b) + rest;
      if IsUnreserved(b) {
        assert s[1..] == rest;
      } else {
        assert s[3..] == rest;
      }
    }
  }
}
