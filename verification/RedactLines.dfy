/**
 The scrubber of apps/dashboard/src/redact.ts on lines and whole texts, and its two promises:
 re-running it changes nothing, and it keeps whitespace, words and lines in place.
 */
module RedactLines {
  import opened JsText
  import opened RedactWords
  import opened Scanner

  function ReluxPass(r: Rules): Pass {
    Pass((w, p) => RedactOne(r, w, p), w => IsSecretKeyMarker(r, w))
  }

  function RedactLine(lower: string -> string, line: string): string {
    ScannedLine(ReluxPass(ReluxRules(lower)), line)
  }

  // ---- The rules settle and keep words ----

  ghost predicate NoSpace(s: string) {
    forall i | 0 <= i < |s| :: !IsSpace(s[i])
  }

  lemma NoSpaceParts(a: string, b: string, c: string)
    requires NoSpace(a + b + c)
    ensures NoSpace(a) && NoSpace(b) && NoSpace(c)
  {
    var w := a + b + c;
    assert forall i | 0 <= i < |a| :: a[i] == w[i];
    assert forall i | 0 <= i < |b| :: b[i] == w[|a| + i];
    assert forall i | 0 <= i < |c| :: c[i] == w[|a| + |b| + i];
  }

  lemma NoSpaceConcat(a: string, b: string)
    requires NoSpace(a) && NoSpace(b)
    ensures NoSpace(a + b)
  {
  }

  lemma MaskHasNoSpace(r: Rules, w: string)
    requires Coherent(r) && NoSpace(r.placeholder) && NoSpace(w)
    ensures IsWord(Mask(r, Strip(r, w)))
  {
    var s := Strip(r, w);
    NoSpaceParts(s.lead, s.core, s.trail);
    NoSpaceConcat(s.lead, r.placeholder);
    NoSpaceConcat(s.lead + r.placeholder, s.trail);
    assert NoSpace(Mask(r, s)) && Mask(r, s) != "";
  }

  lemma MaskedPairIsWord(r: Rules, w: string)
    requires Coherent(r) && NoSpace(r.placeholder) && IsWord(w) && RedactKeyValue(r, w).Some?
    ensures IsWord(RedactKeyValue(r, w).value)
  {
    var sep := PairSeparator(r, w);
    var key, value := PairShape(w, sep);
    TryPairAt(r, key, sep, value);
    NoSpaceParts(key, [sep], value);
    MaskHasNoSpace(r, value);
    NoSpaceConcat(key, [sep]);
    NoSpaceConcat(key + [sep], Mask(r, Strip(r, value)));
  }

  lemma RedactedWordIsWord(r: Rules, w: string, pending: bool)
    requires Coherent(r) && NoSpace(r.placeholder) && IsWord(w)
    ensures IsWord(RedactOne(r, w, pending))
  {
    var out := RedactOne(r, w, pending);
    var masked := Mask(r, Strip(r, w));
    assert IsWord(masked) by { MaskHasNoSpace(r, w); }
    if !pending && RedactKeyValue(r, w).Some? {
      MaskedPairIsWord(r, w);
    } else {
      assert out == w || out == masked;
    }
  }

  lemma PassKeepsWords(r: Rules)
    requires Coherent(r) && NoSpace(r.placeholder)
    ensures KeepsWords(ReluxPass(r))
  {
    forall w, p | IsWord(w) ensures IsWord(RedactOne(r, w, p)) {
      RedactedWordIsWord(r, w, p);
    }
  }

  lemma PassSettles(r: Rules)
    requires Coherent(r) && SecretTokensAreLong(r)
    ensures Settles(ReluxPass(r))
  {
    forall w, p, p' | p' ==> p ensures RedactOne(r, RedactOne(r, w, p), p') == RedactOne(r, w, p) {
      RedactOneFixed(r, w, p, p');
    }
    forall w, p ensures IsSecretKeyMarker(r, RedactOne(r, w, p)) ==> IsSecretKeyMarker(r, w) {
      NoNewMarker(r, w, p);
    }
  }

  lemma ReluxPassSettles(lower: string -> string)
    ensures var f := ReluxPass(ReluxRules(lower)); KeepsWords(f) && Settles(f)
  {
    ReluxRulesCoherent(lower);
    PlaceholderHasNoSpace();
    PassKeepsWords(ReluxRules(lower));
    PassSettles(ReluxRules(lower));
  }

  lemma PlaceholderHasNoSpace()
    ensures NoSpace(PLACEHOLDER)
  {
  }

  // ---- Lines ----

  /** Same length, the same gaps in the same places, and each word kept or showing the placeholder. */
  ghost predicate SameShape(r: Rules, ts: seq<Token>, us: seq<Token>) {
    && |us| == |ts|
    && forall i | 0 <= i < |ts| ::
         if ts[i].Gap? then us[i] == ts[i]
         else us[i].Word? && (us[i].w == ts[i].w || Includes(us[i].w, r.placeholder))
  }

  /** No word without the placeholder has a recognisable secret token as its core. */
  ghost predicate NoTokenShown(r: Rules, us: seq<Token>) {
    forall i | 0 <= i < |us| && us[i].Word? ::
      Includes(us[i].w, r.placeholder) || !r.secretToken(Strip(r, us[i].w).core)
  }

  lemma PassKeepsShape(r: Rules, line: string)
    requires Coherent(r) && SecretTokensAreLong(r) && NoSpace(r.placeholder)
    ensures var ts, us := Tokens(line, ""), Tokens(ScannedLine(ReluxPass(r), line), "");
            SameShape(r, ts, us) && NoTokenShown(r, us)
  {
    var f, ts := ReluxPass(r), Tokens(line, "");
    PassKeepsWords(r);
    ScannedTokens(f, line);
    TokensWellFormed(line, "");
    MapTokensWellFormed(f, ts, false);
    var us := MapTokens(f, ts, false);
    forall i | 0 <= i < |ts| && ts[i].Word?
      ensures us[i].w == ts[i].w || Includes(us[i].w, r.placeholder)
      ensures Includes(us[i].w, r.placeholder) || !r.secretToken(Strip(r, us[i].w).core)
    {
      var p := us[i].w == RedactOne(r, ts[i].w, true);
      KeptOrMasked(r, ts[i].w, p);
      NoTokenLeft(r, ts[i].w, p);
    }
  }

  /**
   A scrubbed line cuts into the same gaps and the same number of words, each kept or masked, and no
   unmasked word has a secret token as its core.
   */
  lemma RedactLineKeepsShape(lower: string -> string, line: string)
    ensures var r, ts, us := ReluxRules(lower), Tokens(line, ""), Tokens(RedactLine(lower, line), "");
            SameShape(r, ts, us) && NoTokenShown(r, us)
  {
    ReluxRulesCoherent(lower);
    PlaceholderHasNoSpace();
    PassKeepsShape(ReluxRules(lower), line);
  }

  lemma {:induction false} FlagAfterGaps(f: Pass, ts: seq<Token>, j: nat, i: nat)
    requires j < i < |ts| && ts[j].Word? && forall k | j < k < i :: ts[k].Gap?
    ensures PendingAt(f, ts, false, i) == f.marks(ts[j].w)
  {
    if i - 1 > j {
      FlagAfterGaps(f, ts, j, i - 1);
    }
  }

  lemma ValueAfterMarker(r: Rules, line: string, j: nat, i: nat)
    requires KeepsWords(ReluxPass(r))
    requires var ts := Tokens(line, "");
             && j < i < |ts| && ts[j].Word? && ts[i].Word? && (forall k | j < k < i :: ts[k].Gap?)
             && IsSecretKeyMarker(r, ts[j].w) && |Strip(r, ts[i].w).core| >= 6
    ensures var ts, us := Tokens(line, ""), Tokens(ScannedLine(ReluxPass(r), line), "");
            |us| == |ts| && us[i] == Word(Mask(r, Strip(r, ts[i].w)))
  {
    var f, ts := ReluxPass(r), Tokens(line, "");
    ScannedTokens(f, line);
    MapTokensAt(f, ts, false, i);
    FlagAfterGaps(f, ts, j, i);
  }

  /** The word after a secret key marker, if its core is long enough, comes out as its wrappers around the placeholder. */
  lemma ValueAfterMarkerMasked(lower: string -> string, line: string, j: nat, i: nat)
    requires var r, ts := ReluxRules(lower), Tokens(line, "");
             && j < i < |ts| && ts[j].Word? && ts[i].Word? && (forall k | j < k < i :: ts[k].Gap?)
             && IsSecretKeyMarker(r, ts[j].w) && |Strip(r, ts[i].w).core| >= 6
    ensures var r, ts, us := ReluxRules(lower), Tokens(line, ""), Tokens(RedactLine(lower, line), "");
            |us| == |ts| && us[i] == Word(Mask(r, Strip(r, ts[i].w)))
  {
    ReluxPassSettles(lower);
    ValueAfterMarker(ReluxRules(lower), line, j, i);
  }

  lemma RedactLineIdempotent(lower: string -> string, line: string)
    ensures RedactLine(lower, RedactLine(lower, line)) == RedactLine(lower, line)
  {
    ReluxPassSettles(lower);
    ScanFixed(ReluxPass(ReluxRules(lower)), line);
  }

  // ---- Whole texts ----

  /** `split("\n")`: one more part than there are newlines. */
  function Split(s: string): (parts: seq<string>)
    ensures |parts| > 0
    ensures forall i | 0 <= i < |parts| :: '\n' !in parts[i]
  {
    if s == "" then [""]
    else
      var parts := Split(s[1..]);
      if s[0] == '\n' then [""] + parts
      else [[s[0]] + parts[0]] + parts[1..]
  }

  function Join(parts: seq<string>): string
    requires |parts| > 0
  {
    if |parts| == 1 then parts[0] else parts[0] + ['\n'] + Join(parts[1..])
  }

  function RedactSecrets(lower: string -> string, input: string): string {
    if input == "" then input
    else
      var parts := Split(input);
      Join(seq(|parts|, i requires 0 <= i < |parts| => RedactLine(lower, parts[i])))
  }

  lemma {:induction false} SplitLine(line: string, rest: string)
    requires '\n' !in line
    ensures Split(line) == [line]
    ensures Split(line + ['\n'] + rest) == [line] + Split(rest)
  {
    var s := line + ['\n'] + rest;
    if line == "" {
      assert s[1..] == rest;
    } else {
      SplitLine(line[1..], rest);
      assert s[1..] == line[1..] + ['\n'] + rest;
      assert [line[0]] + line[1..] == line;
    }
  }

  lemma {:induction false} SplitJoin(parts: seq<string>)
    requires |parts| > 0
    requires forall i | 0 <= i < |parts| :: '\n' !in parts[i]
    ensures Split(Join(parts)) == parts
  {
    if |parts| == 1 {
      SplitLine(parts[0], "");
    } else {
      SplitJoin(parts[1..]);
      SplitLine(parts[0], Join(parts[1..]));
    }
  }

  /** The scrubber works line by line: the i-th line of the output is the i-th line scrubbed. */
  lemma RedactSecretsByLine(lower: string -> string, input: string)
    ensures var parts, outs := Split(input), Split(RedactSecrets(lower, input));
            |outs| == |parts| &&
            forall i | 0 <= i < |parts| :: outs[i] == RedactLine(lower, parts[i])
  {
    var parts := Split(input);
    if input != "" {
      var outs := seq(|parts|, i requires 0 <= i < |parts| => RedactLine(lower, parts[i]));
      forall i | 0 <= i < |parts| ensures '\n' !in outs[i] {
        ReluxPassSettles(lower);
        ScanAddsNoSpace(ReluxPass(ReluxRules(lower)), parts[i], '\n');
      }
      SplitJoin(outs);
    }
  }

  /** Re-running the scrubber over its own output changes nothing, for every text. */
  lemma RedactSecretsIdempotent(lower: string -> string, input: string)
    ensures RedactSecrets(lower, RedactSecrets(lower, input)) == RedactSecrets(lower, input)
  {
    var out := RedactSecrets(lower, input);
    if input != "" && out != "" {
      var parts := Split(input);
      var once := seq(|parts|, i requires 0 <= i < |parts| => RedactLine(lower, parts[i]));
      RedactSecretsByLine(lower, input);
      assert Split(out) == once;
      forall i | 0 <= i < |once| ensures RedactLine(lower, once[i]) == once[i] {
        RedactLineIdempotent(lower, parts[i]);
      }
      assert seq(|once|, i requires 0 <= i < |once| => RedactLine(lower, once[i])) == once;
    }
  }
}
