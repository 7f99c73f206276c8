/** The JavaScript text primitives that several modules use. */
module JsText {

  /** The characters matched by `\s`, which are also the ones `trim` and `parseInt` skip. */
  predicate IsSpace(c: char) {
    c == ' ' || '\t' <= c <= '\r' || c == '\U{00A0}' || c == '\U{1680}' ||
    '\U{2000}' <= c <= '\U{200A}' || c == '\U{2028}' || c == '\U{2029}' ||
    c == '\U{202F}' || c == '\U{205F}' || c == '\U{3000}' || c == '\U{FEFF}'
  }

  function SpaceEnd(s: string, i: nat): (n: nat)
    requires i <= |s|
    ensures i <= n <= |s|
    ensures forall k | i <= k < n :: IsSpace(s[k])
    ensures n < |s| ==> !IsSpace(s[n])
    decreases |s| - i
  {
    if i == |s| || !IsSpace(s[i]) then i else SpaceEnd(s, i + 1)
  }

  function SpaceStart(s: string, start: nat, end: nat): (n: nat)
    requires start <= end <= |s|
    ensures start <= n <= end
    ensures forall k | n <= k < end :: IsSpace(s[k])
    ensures n > start ==> !IsSpace(s[n - 1])
    decreases end
  {
    if end == start || !IsSpace(s[end - 1]) then end else SpaceStart(s, start, end - 1)
  }

  /** `trim`. */
  function Trim(s: string): string {
    var start := SpaceEnd(s, 0);
    s[start..SpaceStart(s, start, |s|)]
  }

  /** The white space of ECMAScript: its code points. */
  lemma SpaceCodes(c: char)
    ensures var n := c as int;
            IsSpace(c) <==>
              || n == 9 || n == 10 || n == 11 || n == 12 || n == 13 || n == 32 || n == 160 || n == 5760
              || 8192 <= n <= 8202 || n == 8232 || n == 8233 || n == 8239 || n == 8287 || n == 12288 || n == 65279
  {
  }

  ghost predicate Blank(s: string) {
    forall i | 0 <= i < |s| :: IsSpace(s[i])
  }

  lemma ThreeParts(s: string, i: nat, j: nat)
    requires i <= j <= |s|
    ensures s == s[..i] + s[i..j] + s[j..]
  {
  }

  /** `trim` takes the white space off both ends and nothing else. */
  lemma TrimCuts(s: string) returns (pre: string, post: string)
    ensures s == pre + Trim(s) + post && Blank(pre) && Blank(post)
    ensures Trim(s) != "" ==> !IsSpace(Trim(s)[0]) && !IsSpace(Trim(s)[|Trim(s)| - 1])
  {
    var start := SpaceEnd(s, 0);
    var end := SpaceStart(s, start, |s|);
    pre, post := s[..start], s[end..];
    ThreeParts(s, start, end);
  }

  // ---- Digits ----

  predicate IsDigit(c: char) { '0' <= c <= '9' }

  function Digit(c: char): nat
    requires IsDigit(c)
  {
    (c as int) - ('0' as int)
  }

  /** The value of the longest run of leading digits, continuing from `acc`. */
  function DigitsFrom(s: string, acc: nat): nat {
    if s == "" || !IsDigit(s[0]) then acc else DigitsFrom(s[1..], 10 * acc + Digit(s[0]))
  }

  /** A number as a template literal prints it. */
  function Decimal(n: nat): (s: string)
    ensures s != "" && forall i | 0 <= i < |s| :: IsDigit(s[i])
  {
    if n < 10 then ['0' + (n as char)] else Decimal(n / 10) + ['0' + ((n % 10) as char)]
  }

  lemma {:induction false} DigitsConcat(s: string, t: string, acc: nat)
    requires forall i | 0 <= i < |s| :: IsDigit(s[i])
    ensures DigitsFrom(s + t, acc) == DigitsFrom(t, DigitsFrom(s, acc))
  {
    if s == "" {
      assert s + t == t;
    } else {
      assert (s + t)[1..] == s[1..] + t;
      DigitsConcat(s[1..], t, 10 * acc + Digit(s[0]));
    }
  }

  lemma {:induction false} DecimalValue(n: nat)
    ensures DigitsFrom(Decimal(n), 0) == n
  {
    if n >= 10 {
      DecimalValue(n / 10);
      DigitsConcat(Decimal(n / 10), ['0' + ((n % 10) as char)], 0);
    }
  }
}
