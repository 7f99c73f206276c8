/**
 The skills field of the crew form: apps/dashboard/src/skills.ts. `lower` stands for `toLowerCase`; where
 it matters, it is only assumed to leave the letters, digits and hyphens of a slug alone.
 */
module Skills {
  import opened JsText

  const MAX_SKILL_CHARS: nat := 32
  const MAX_SKILLS: nat := 16

  predicate IsSlugChar(c: char) {
    'a' <= c <= 'z' || '0' <= c <= '9'
  }

  /** Letters, digits and hyphens, no two hyphens in a row. */
  predicate Hyphenated(s: string) {
    && (forall i | 0 <= i < |s| :: IsSlugChar(s[i]) || s[i] == '-')
    && (forall i | 0 <= i < |s| - 1 :: s[i] == '-' ==> s[i + 1] != '-')
  }

  predicate BareEnds(s: string) {
    s != "" ==> s[0] != '-' && s[|s| - 1] != '-'
  }

  /** The slug grammar: at most 32 letters and digits with single inner hyphens. */
  predicate IsSlug(s: string) {
    Hyphenated(s) && BareEnds(s) && |s| <= MAX_SKILL_CHARS
  }

  // ---- One skill ----

  /** What the character loop has built when it ends, going on from position `i`. */
  function Collapse(s: string, i: nat, out: string, lastHyphen: bool): string
    requires i <= |s|
    decreases |s| - i
  {
    if i == |s| then out
    else
      var out' := if IsSlugChar(s[i]) then out + [s[i]] else if !lastHyphen then out + ['-'] else out;
      if |out'| >= MAX_SKILL_CHARS then out'
      else Collapse(s, i + 1, out', !IsSlugChar(s[i]))
  }

  function HyphenEnd(s: string, i: nat): (n: nat)
    requires i <= |s|
    ensures i <= n <= |s| && (n < |s| ==> s[n] != '-')
    ensures i < |s| && s[i] != '-' ==> n == i
    decreases |s| - i
  {
    if i == |s| || s[i] != '-' then i else HyphenEnd(s, i + 1)
  }

  function HyphenStart(s: string, start: nat, end: nat): (n: nat)
    requires start <= end <= |s|
    ensures start <= n <= end && (n > start ==> s[n - 1] != '-')
    ensures start < end && s[end - 1] != '-' ==> n == end
    decreases end
  {
    if end == start || s[end - 1] != '-' then end else HyphenStart(s, start, end - 1)
  }

  /** `replace(/^-+|-+$/g, "")`. */
  function StripHyphens(s: string): string {
    var start := HyphenEnd(s, 0);
    s[start..HyphenStart(s, start, |s|)]
  }

  function Clamp(s: string): string {
    if |s| > MAX_SKILL_CHARS then s[..MAX_SKILL_CHARS] else s
  }

  function Slugify(lower: string -> string, raw: string): string {
    Clamp(StripHyphens(Collapse(lower(Trim(raw)), 0, "", false)))
  }

  /** The loop with its early exit. */
  method SlugifySkill(lower: string -> string, raw: string) returns (slug: string)
    ensures slug == Slugify(lower, raw)
  {
    var lowered := lower(Trim(raw));
    var out := "";
    var lastHyphen := false;
    var i := 0;
    while i < |lowered|
      invariant 0 <= i <= |lowered|
      invariant Collapse(lowered, i, out, lastHyphen) == Collapse(lowered, 0, "", false)
    {
      var ch := lowered[i];
      if IsSlugChar(ch) {
        out := out + [ch];
        lastHyphen := false;
      } else if !lastHyphen {
        out := out + ['-'];
        lastHyphen := true;
      }
      i := i + 1;
      if |out| >= MAX_SKILL_CHARS {
        break;
      }
    }
    assert out == Collapse(lowered, 0, "", false);
    slug := Clamp(StripHyphens(out));
  }

  /** What the loop keeps: hyphens stay single and the flag says whether the last character is one. */
  lemma {:induction false} CollapseHyphenated(s: string, i: nat, out: string, lastHyphen: bool)
    requires i <= |s| && Hyphenated(out) && |out| < MAX_SKILL_CHARS
    requires lastHyphen <==> out != "" && out[|out| - 1] == '-'
    ensures var r := Collapse(s, i, out, lastHyphen); Hyphenated(r) && |r| <= MAX_SKILL_CHARS
    decreases |s| - i
  {
    if i < |s| {
      var out' := if IsSlugChar(s[i]) then out + [s[i]] else if !lastHyphen then out + ['-'] else out;
      assert Hyphenated(out') by {
        assert forall k | 0 <= k < |out| :: out'[k] == out[k];
      }
      if |out'| < MAX_SKILL_CHARS {
        CollapseHyphenated(s, i + 1, out', !IsSlugChar(s[i]));
      }
    }
  }

  /** Whatever is typed, the result is in the slug grammar. */
  lemma SlugifyIsSlug(lower: string -> string, raw: string)
    ensures IsSlug(Slugify(lower, raw))
  {
    var s := lower(Trim(raw));
    CollapseHyphenated(s, 0, "", false);
  }

  /** Lower-casing leaves slugs alone. */
  ghost predicate KeepsSlugs(lower: string -> string) {
    forall s :: IsSlug(s) ==> lower(s) == s
  }

  lemma {:induction false} CollapseIdentity(s: string, i: nat)
    requires IsSlug(s) && i <= |s| && i < MAX_SKILL_CHARS
    ensures Collapse(s, i, s[..i], i > 0 && s[i - 1] == '-') == s
    decreases |s| - i
  {
    if i == |s| {
      assert s[..i] == s;
    } else {
      assert s[..i + 1] == s[..i] + [s[i]];
      if i + 1 >= MAX_SKILL_CHARS {
        assert s[..i + 1] == s;
      } else {
        CollapseIdentity(s, i + 1);
      }
    }
  }

  lemma TrimSlug(pad: string, s: string)
    requires IsSlug(s) && forall i | 0 <= i < |pad| :: IsSpace(pad[i])
    ensures Trim(pad + s) == s
  {
    var t := pad + s;
    assert forall k | 0 <= k < |pad| :: t[k] == pad[k];
    if s == "" {
      assert t == pad;
    } else {
      TrimAt(t, |pad|);
      assert t[|pad|..] == s;
    }
  }

  /** Leading blanks go, and nothing else when the text does not end in one. */
  lemma TrimAt(t: string, n: nat)
    requires n < |t| && !IsSpace(t[n]) && !IsSpace(t[|t| - 1])
    requires forall k | 0 <= k < n :: IsSpace(t[k])
    ensures Trim(t) == t[n..]
  {
    assert SpaceEnd(t, 0) == n;
    assert SpaceStart(t, n, |t|) == |t|;
  }

  /** Slugs, also behind blanks, are fixed points. */
  lemma SlugifyIdentity(lower: string -> string, pad: string, s: string)
    requires KeepsSlugs(lower) && IsSlug(s) && forall i | 0 <= i < |pad| :: IsSpace(pad[i])
    ensures Slugify(lower, pad + s) == s
  {
    TrimSlug(pad, s);
    CollapseIdentity(s, 0);
    assert s[..0] == "";
    assert StripHyphens(s) == s;
  }

  // ---- The list field ----

  /** `split(/[,\n]/)`, with `part` already read. */
  function Split(raw: string, part: string): seq<string> {
    if raw == "" then [part]
    else if raw[0] == ',' || raw[0] == '\n' then [part] + Split(raw[1..], "")
    else Split(raw[1..], part + [raw[0]])
  }

  function Slugs(lower: string -> string, parts: seq<string>): seq<string> {
    if parts == [] then [] else [Slugify(lower, parts[0])] + Slugs(lower, parts[1..])
  }

  /** Drops empty and repeated slugs until the list is full. */
  function Collect(slugs: seq<string>, out: seq<string>): seq<string>
    decreases |slugs|
  {
    if slugs == [] then out
    else
      var out' := if slugs[0] != "" && slugs[0] !in out then out + [slugs[0]] else out;
      if |out'| >= MAX_SKILLS then out' else Collect(slugs[1..], out')
  }

  function Parse(lower: string -> string, raw: string): seq<string> {
    Collect(Slugs(lower, Split(raw, "")), [])
  }

  /** The loop over the parts, with its cap. */
  method ParseSkillsInput(lower: string -> string, raw: string) returns (out: seq<string>)
    ensures out == Parse(lower, raw)
  {
    var parts := Split(raw, "");
    out := [];
    var i := 0;
    while i < |parts|
      invariant 0 <= i <= |parts|
      invariant Collect(Slugs(lower, parts[i..]), out) == Parse(lower, raw)
    {
      assert parts[i..][0] == parts[i] && parts[i..][1..] == parts[i + 1..];
      assert Slugs(lower, parts[i..])[1..] == Slugs(lower, parts[i + 1..]);
      var slug := SlugifySkill(lower, parts[i]);
      if slug != "" && slug !in out {
        out := out + [slug];
      }
      i := i + 1;
      if |out| >= MAX_SKILLS {
        break;
      }
    }
  }

  /** `join(", ")`. */
  function Format(skills: seq<string>): string {
    if skills == [] then ""
    else if |skills| == 1 then skills[0]
    else skills[0] + ", " + Format(skills[1..])
  }

  /** Distinct, non-empty slugs. */
  ghost predicate SlugList(xs: seq<string>) {
    && (forall i | 0 <= i < |xs| :: xs[i] != "" && IsSlug(xs[i]))
    && (forall i, j | 0 <= i < j < |xs| :: xs[i] != xs[j])
  }

  lemma {:induction false} CollectSlugs(slugs: seq<string>, out: seq<string>)
    requires SlugList(out) && |out| < MAX_SKILLS && forall i | 0 <= i < |slugs| :: IsSlug(slugs[i])
    ensures var r := Collect(slugs, out); SlugList(r) && |r| <= MAX_SKILLS
    decreases |slugs|
  {
    if slugs != [] {
      var take := slugs[0] != "" && slugs[0] !in out;
      var out' := if take then out + [slugs[0]] else out;
      if |out'| < MAX_SKILLS {
        CollectSlugs(slugs[1..], out');
      }
    }
  }

  lemma {:induction false} SlugsAreSlugs(lower: string -> string, parts: seq<string>)
    ensures forall i | 0 <= i < |Slugs(lower, parts)| :: IsSlug(Slugs(lower, parts)[i])
  {
    if parts != [] {
      SlugifyIsSlug(lower, parts[0]);
      SlugsAreSlugs(lower, parts[1..]);
    }
  }

  /** The parts of a formatted list: every slug but the first behind a blank. */
  function Parts(skills: seq<string>, pad: string): seq<string> {
    if skills == [] then [] else [pad + skills[0]] + Parts(skills[1..], " ")
  }

  lemma {:induction false} SplitWord(w: string, rest: string, part: string)
    requires ',' !in w && '\n' !in w
    ensures Split(w + rest, part) == Split(rest, part + w)
  {
    if w == "" {
      assert w + rest == rest && part + w == part;
    } else {
      assert (w + rest)[0] == w[0] && (w + rest)[1..] == w[1..] + rest;
      SplitWord(w[1..], rest, part + [w[0]]);
      assert part + [w[0]] + w[1..] == part + w;
    }
  }

  lemma SplitSeparator(rest: string, part: string)
    ensures Split(", " + rest, part) == [part] + Split(rest, " ")
  {
    var s := ", " + rest;
    assert s[0] == ',' && s[1..] == [' '] + rest;
    assert ([' '] + rest)[1..] == rest;
    assert "" + [' '] == " ";
    assert Split([' '] + rest, "") == Split(rest, " ");
  }

  lemma {:induction false} SplitFormat(skills: seq<string>, pad: string)
    requires skills != [] && forall i | 0 <= i < |skills| :: IsSlug(skills[i])
    ensures Split(Format(skills), pad) == Parts(skills, pad)
  {
    var w, tail := skills[0], skills[1..];
    if |skills| == 1 {
      SplitWord(w, "", pad);
      assert w + "" == w && tail == [];
    } else {
      var rest := Format(tail);
      SplitFormat(tail, " ");
      SplitSeparator(rest, pad + w);
      SplitWord(w, ", " + rest, pad);
      assert w + ", " + rest == w + (", " + rest);
    }
  }

  /** Slugs come back from their formatted parts. */
  lemma {:induction false} SlugsOfParts(lower: string -> string, xs: seq<string>, pad: string)
    requires KeepsSlugs(lower) && (pad == "" || pad == " ")
    requires forall i | 0 <= i < |xs| :: IsSlug(xs[i])
    ensures Slugs(lower, Parts(xs, pad)) == xs
  {
    if xs != [] {
      SlugifyIdentity(lower, pad, xs[0]);
      SlugsOfParts(lower, xs[1..], " ");
      assert Parts(xs, pad)[1..] == Parts(xs[1..], " ");
    }
  }

  /** A list without repeats or empty entries is collected whole while it fits. */
  lemma {:induction false} CollectAll(xs: seq<string>, out: seq<string>)
    requires forall i | 0 <= i < |xs| :: xs[i] != "" && xs[i] !in out
    requires forall i, j | 0 <= i < j < |xs| :: xs[i] != xs[j]
    requires |out| + |xs| <= MAX_SKILLS
    ensures Collect(xs, out) == out + xs
    decreases |xs|
  {
    if xs != [] {
      var out' := out + [xs[0]];
      if |out'| < MAX_SKILLS {
        forall i | 0 <= i < |xs[1..]| ensures xs[1..][i] != "" && xs[1..][i] !in out' {
          assert xs[1..][i] == xs[i + 1];
        }
        CollectAll(xs[1..], out');
      }
      assert out' + xs[1..] == out + xs;
    }
  }

  lemma ParseNothing(lower: string -> string)
    requires KeepsSlugs(lower)
    ensures Parse(lower, "") == []
  {
    SlugifyIdentity(lower, "", "");
    assert Slugs(lower, [""]) == [""] by {
      assert [""][1..] == [];
    }
    assert Collect([""], []) == [] by {
      assert [""][1..] == [];
    }
  }

  lemma SomeSplitBack(lower: string -> string, xs: seq<string>)
    requires KeepsSlugs(lower) && xs != [] && forall i | 0 <= i < |xs| :: IsSlug(xs[i])
    ensures Slugs(lower, Split(Format(xs), "")) == xs
  {
    SplitFormat(xs, "");
    SlugsOfParts(lower, xs, "");
  }

  /** Parsing inverts formatting on every list of at most 16 distinct non-empty slugs. */
  lemma ParseInvertsFormat(lower: string -> string, xs: seq<string>)
    requires KeepsSlugs(lower) && SlugList(xs) && |xs| <= MAX_SKILLS
    ensures Parse(lower, Format(xs)) == xs
  {
    if xs == [] {
      ParseNothing(lower);
    } else {
      SomeSplitBack(lower, xs);
      CollectAll(xs, []);
      assert [] + xs == xs;
    }
  }

  /** What the field shows after parsing parses to the same list again. */
  lemma ParseIsNormal(lower: string -> string, raw: string)
    requires KeepsSlugs(lower)
    ensures SlugList(Parse(lower, raw)) && |Parse(lower, raw)| <= MAX_SKILLS
    ensures Parse(lower, Format(Parse(lower, raw))) == Parse(lower, raw)
  {
    SlugsAreSlugs(lower, Split(raw, ""));
    CollectSlugs(Slugs(lower, Split(raw, "")), []);
    ParseInvertsFormat(lower, Parse(lower, raw));
  }
}
