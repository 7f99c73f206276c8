/**
 What the skills field of apps/dashboard/src/skills.ts makes of a text, said without its loops, its flag and
 its early exits.
 */
module SkillsSpec {
  import opened JsText
  import opened Positions
  import opened Skills

  // ---- One skill ----

  /** Lower-case letters and digits stay, every run of other characters becomes one hyphen. */
  function Squashed(s: string, i: nat): string
    requires i <= |s|
    decreases |s| - i
  {
    if i == |s| then ""
    else
      (if 'a' <= s[i] <= 'z' || '0' <= s[i] <= '9' then [s[i]]
       else if i == 0 || 'a' <= s[i - 1] <= 'z' || '0' <= s[i - 1] <= '9' then ['-']
       else []) + Squashed(s, i + 1)
  }

  function AtMost(s: string, n: nat): string {
    if |s| > n then s[..n] else s
  }

  lemma {:induction false} CollapseMeans(s: string, i: nat, out: string)
    requires i <= |s| && |out| < 32
    ensures Collapse(s, i, out, i > 0 && !IsSlugChar(s[i - 1])) == AtMost(out + Squashed(s, i), 32)
    decreases |s| - i
  {
    if i == |s| {
      assert out + Squashed(s, i) == out;
    } else {
      var step := if IsSlugChar(s[i]) then [s[i]] else if i == 0 || IsSlugChar(s[i - 1]) then ['-'] else [];
      var out' := out + step;
      Grouped(out, step, Squashed(s, i + 1));
      if |out'| >= 32 {
        assert AtMost(out' + Squashed(s, i + 1), 32) == out';
      } else {
        CollapseMeans(s, i + 1, out');
      }
      assert step == [] ==> out' == out;
    }
  }

  lemma Grouped(a: string, b: string, c: string)
    ensures (a + b) + c == a + (b + c)
  {
  }

  ghost predicate Hyphens(s: string) {
    forall i | 0 <= i < |s| :: s[i] == '-'
  }

  lemma {:induction false} HyphenEndMeans(s: string, i: nat)
    requires i <= |s|
    ensures forall k | i <= k < HyphenEnd(s, i) :: s[k] == '-'
    decreases |s| - i
  {
    if i < |s| && s[i] == '-' {
      HyphenEndMeans(s, i + 1);
    }
  }

  lemma {:induction false} HyphenStartMeans(s: string, start: nat, end: nat)
    requires start <= end <= |s|
    ensures forall k | HyphenStart(s, start, end) <= k < end :: s[k] == '-'
    decreases end
  {
    if end > start && s[end - 1] == '-' {
      HyphenStartMeans(s, start, end - 1);
    }
  }

  lemma StripMeans(s: string) returns (pre: string, post: string)
    ensures s == pre + StripHyphens(s) + post && Hyphens(pre) && Hyphens(post) && BareEnds(StripHyphens(s))
  {
    var start := HyphenEnd(s, 0);
    var end := HyphenStart(s, start, |s|);
    HyphenEndMeans(s, 0);
    HyphenStartMeans(s, start, |s|);
    pre, post := s[..start], s[end..];
    ThreeParts(s, start, end);
  }

  /** A slug is the squashed, trimmed and lower-cased text, cut at 32 characters, without the hyphens at its ends. */
  lemma SlugifyMeans(lower: string -> string, raw: string) returns (pre: string, post: string)
    ensures AtMost(Squashed(lower(Trim(raw)), 0), 32) == pre + Slugify(lower, raw) + post
    ensures Hyphens(pre) && Hyphens(post) && BareEnds(Slugify(lower, raw))
  {
    var s := lower(Trim(raw));
    CollapseMeans(s, 0, "");
    assert "" + Squashed(s, 0) == Squashed(s, 0);
    pre, post := StripMeans(Collapse(s, 0, "", false));
  }

  ghost predicate SlugWord(s: string) {
    s != "" && forall i | 0 <= i < |s| :: IsSlugChar(s[i])
  }

  lemma {:induction false} SquashedWord(s: string, i: nat, j: nat)
    requires i <= j <= |s| && forall k | i <= k < j :: IsSlugChar(s[k])
    ensures Squashed(s, i) == s[i..j] + Squashed(s, j)
    decreases j - i
  {
    if i < j {
      SquashedWord(s, i + 1, j);
    } else {
      assert s[i..j] == "";
    }
  }

  lemma SquashedTwo(u: string, v: string)
    requires SlugWord(u) && SlugWord(v)
    ensures Squashed(u + [' '] + v, 0) == u + ['-'] + v
  {
    var s, n := u + [' '] + v, |u|;
    assert s[0..n] == u && s[n] == ' ' && s[n + 1..|s|] == v && s[n - 1] == u[n - 1];
    SquashedWord(s, 0, n);
    SquashedWord(s, n + 1, |s|);
    assert Squashed(s, |s|) == "" && v + "" == v;
    assert Squashed(s, n) == ['-'] + v;
    Grouped(u, ['-'], v);
  }

  lemma StripBare(s: string)
    requires s != "" && s[0] != '-' && s[|s| - 1] != '-'
    ensures StripHyphens(s) == s
  {
    assert HyphenEnd(s, 0) == 0 && HyphenStart(s, 0, |s|) == |s|;
    assert s[0..|s|] == s;
  }

  lemma SlugifyTwo(lower: string -> string, u: string, v: string)
    requires SlugWord(u) && SlugWord(v) && |u| + |v| < 32
    requires lower(u + [' '] + v) == u + [' '] + v
    ensures Slugify(lower, u + [' '] + v) == u + ['-'] + v
  {
    var s, slug := u + [' '] + v, u + ['-'] + v;
    assert s[0] == u[0] && s[|s| - 1] == v[|v| - 1];
    TrimAt(s, 0);
    assert s[0..] == s;
    SquashedTwo(u, v);
    CollapseMeans(s, 0, "");
    assert "" + slug == slug;
    assert slug[0] == u[0] && slug[|slug| - 1] == v[|v| - 1];
    StripBare(slug);
  }

  /** A blank separates no skills: two words with a blank between them are one slug. */
  lemma BlankJoins(lower: string -> string, u: string, v: string)
    requires SlugWord(u) && SlugWord(v) && |u| + |v| < 32
    requires lower(u + [' '] + v) == u + [' '] + v
    ensures Parse(lower, u + [' '] + v) == [u + ['-'] + v]
  {
    SlugifyTwo(lower, u, v);
    assert ',' !in u && '\n' !in u && ',' !in v && '\n' !in v;
    OnePart(lower, u + [' '] + v);
  }

  /** A text without commas and line breaks is one part. */
  lemma OnePart(lower: string -> string, s: string)
    requires ',' !in s && '\n' !in s && Slugify(lower, s) != ""
    ensures Parse(lower, s) == [Slugify(lower, s)]
  {
    var slug := Slugify(lower, s);
    SplitWord(s, "", "");
    assert s + "" == s && "" + s == s;
    assert Split(s, "") == [s];
    assert [slug][1..] == [] && [] + [slug] == [slug];
    assert Collect([slug], []) == Collect([], [slug]);
  }

  // ---- The list ----

  ghost predicate Separates(c: char) {
    c == ',' || c == '\n'
  }

  /** The parts with their separators between them. */
  function Interleaved(parts: seq<string>, seps: string): string
    requires |parts| == |seps| + 1
  {
    if seps == "" then parts[0] else parts[0] + ([seps[0]] + Interleaved(parts[1..], seps[1..]))
  }

  /** Cutting at every comma and line break, and nowhere else. */
  lemma {:induction false} SplitMeans(raw: string, part: string) returns (seps: string)
    requires forall i | 0 <= i < |part| :: !Separates(part[i])
    ensures |Split(raw, part)| == |seps| + 1 && Interleaved(Split(raw, part), seps) == part + raw
    ensures forall i | 0 <= i < |seps| :: Separates(seps[i])
    ensures forall i, k | 0 <= i < |Split(raw, part)| && 0 <= k < |Split(raw, part)[i]| :: !Separates(Split(raw, part)[i][k])
    decreases |raw|
  {
    if raw == "" {
      seps := "";
      assert part + raw == part;
    } else if Separates(raw[0]) {
      var later := SplitMeans(raw[1..], "");
      seps := [raw[0]] + later;
      assert seps[1..] == later && Split(raw, part)[1..] == Split(raw[1..], "");
      assert "" + raw[1..] == raw[1..] && raw == [raw[0]] + raw[1..];
    } else {
      seps := SplitMeans(raw[1..], part + [raw[0]]);
      assert part + [raw[0]] + raw[1..] == part + raw;
    }
  }

  /** The slug stands here, is not empty and did not occur before. */
  ghost predicate IsNew(slugs: seq<string>, p: nat) {
    p < |slugs| && slugs[p] != "" && forall q | 0 <= q < p :: slugs[q] != slugs[p]
  }

  /** The new slugs from a position on. */
  function NewFrom(slugs: seq<string>, p: nat): seq<string>
    requires p <= |slugs|
    decreases |slugs| - p
  {
    if p == |slugs| then []
    else (if slugs[p] != "" && slugs[p] !in slugs[..p] then [slugs[p]] else []) + NewFrom(slugs, p + 1)
  }

  lemma {:induction false} NewInOrder(slugs: seq<string>, p: nat) returns (index: seq<nat>)
    requires p <= |slugs|
    ensures Lists(index, p, (i: nat) => IsNew(slugs, i)) && Reads(slugs, index, NewFrom(slugs, p))
    decreases |slugs| - p
  {
    if p == |slugs| {
      index := [];
    } else {
      var later := NewInOrder(slugs, p + 1);
      ListsNext(later, p, (i: nat) => IsNew(slugs, i));
      ReadsNext(slugs, later, NewFrom(slugs, p + 1), p);
      index := if IsNew(slugs, p) then [p] + later else later;
    }
  }

  function FirstOnes(xs: seq<string>, n: nat): seq<string> {
    if |xs| > n then xs[..n] else xs
  }

  lemma {:induction false} CollectMeans(slugs: seq<string>, out: seq<string>, p: nat)
    requires p <= |slugs| && |out| < 16
    requires forall s :: s in out <==> s != "" && s in slugs[..p]
    ensures Collect(slugs[p..], out) == FirstOnes(out + NewFrom(slugs, p), 16)
    decreases |slugs| - p
  {
    if p == |slugs| {
      assert out + NewFrom(slugs, p) == out;
    } else {
      var s, rest := slugs[p], NewFrom(slugs, p + 1);
      var step := if s != "" && s !in slugs[..p] then [s] else [];
      assert slugs[p..][0] == s && slugs[p..][1..] == slugs[p + 1..];
      assert slugs[..p + 1] == slugs[..p] + [s];
      assert out + (step + rest) == (out + step) + rest;
      assert step == [] ==> out + step == out;
      if |out + step| < 16 {
        CollectMeans(slugs, out + step, p + 1);
      } else {
        assert FirstOnes((out + step) + rest, 16) == out + step;
      }
    }
  }

  /** The list is the first sixteen new slugs of the parts, in order. */
  lemma ParseMeans(lower: string -> string, raw: string) returns (index: seq<nat>)
    ensures var slugs := Slugs(lower, Split(raw, ""));
            && Lists(index, 0, (i: nat) => IsNew(slugs, i)) && Reads(slugs, index, NewFrom(slugs, 0))
            && Parse(lower, raw) == FirstOnes(NewFrom(slugs, 0), 16)
  {
    var slugs := Slugs(lower, Split(raw, ""));
    index := NewInOrder(slugs, 0);
    CollectMeans(slugs, [], 0);
    assert slugs[0..] == slugs && [] + NewFrom(slugs, 0) == NewFrom(slugs, 0);
  }
}
