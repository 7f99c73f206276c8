/**
 What the scrubber of apps/dashboard/src/redact.ts does to a line, said without its helpers: the wrapper
 characters, the key fragments and the token prefixes are written out, separators are found by cutting the
 word, and cores by the exhaustive cut of a token.
 */
module RedactSpec {
  import opened JsText
  import opened RedactWords
  import opened Scanner
  import opened RedactLines

  ghost predicate Wraps(c: char) {
    || c == '"' || c == '\'' || c == '`' || c == '(' || c == ')' || c == '[' || c == ']'
    || c == '{' || c == '}' || c == ',' || c == ';' || c == '.' || c == '<' || c == '>'
  }

  /** The one way to take all wrappers off both ends; of a token that is all wrappers nothing is left. */
  ghost predicate Cut(token: string, lead: string, core: string, trail: string) {
    && token == lead + core + trail
    && (forall i | 0 <= i < |lead| :: Wraps(lead[i])) && (forall i | 0 <= i < |trail| :: Wraps(trail[i]))
    && (if core == "" then trail == "" else !Wraps(core[0]) && !Wraps(core[|core| - 1]))
  }

  ghost predicate Has(s: string, part: string) {
    exists pre, post :: s == pre + part + post
  }

  ghost predicate SecretName(name: string) {
    || Has(name, "key") || Has(name, "token") || Has(name, "secret") || Has(name, "password")
    || Has(name, "passwd") || Has(name, "auth") || Has(name, "credential")
  }

  ghost predicate SecretToken(t: string) {
    && |t| >= 12
    && (|| "sk-ant-" <= t || "sk-" <= t || "github_pat_" <= t || "ghp_" <= t || "gho_" <= t || "ghu_" <= t
        || "ghs_" <= t || "ghr_" <= t || "xoxb-" <= t || "xoxp-" <= t || "xoxa-" <= t || "xoxs-" <= t
        || "xapp-" <= t || "glpat-" <= t || "ya29." <= t || "AKIA" <= t || "ASIA" <= t || "AIza" <= t
        || "relux_agt_" <= t)
  }

  /** `out` is `word` with the core of its value or of itself replaced, behind what stays in front of it. */
  ghost predicate Hidden(front: string, value: string, out: string) {
    exists lead, core, trail :: Cut(value, lead, core, trail) && out == front + lead + "***REDACTED***" + trail
  }

  ghost predicate LongCore(value: string) {
    exists lead, core, trail :: Cut(value, lead, core, trail) && |core| >= 6
  }

  ghost predicate SecretKey(lower: string -> string, key: string) {
    exists lead, core, trail :: Cut(key, lead, core, trail) && SecretName(lower(core))
  }

  /** The first `sep` of the word stands between the two. */
  ghost predicate SplitAt(word: string, key: string, sep: char, value: string) {
    word == key + [sep] + value && sep !in key
  }

  /** The name of a secret, and a value worth hiding that is not the rest of a URL. */
  ghost predicate SecretValue(lower: string -> string, key: string, value: string) {
    && value != "" && value[0] != '/'
    && SecretKey(lower, Trim(key)) && LongCore(value)
  }

  ghost predicate SecretPair(lower: string -> string, word: string, key: string, sep: char, value: string) {
    SplitAt(word, key, sep, value) && SecretValue(lower, key, value)
  }

  ghost predicate HasSecretPair(lower: string -> string, word: string, sep: char) {
    exists key, value :: SecretPair(lower, word, key, sep, value)
  }

  ghost predicate HidesPair(lower: string -> string, word: string, sep: char, out: string) {
    exists key, value :: SecretPair(lower, word, key, sep, value) && Hidden(key + [sep], value, out)
  }

  ghost predicate IsSecretToken(word: string) {
    exists lead, core, trail :: Cut(word, lead, core, trail) && SecretToken(core)
  }

  /** What becomes of a word that does not follow a marker. */
  ghost predicate Plain(lower: string -> string, word: string, out: string) {
    if HasSecretPair(lower, word, '=') then HidesPair(lower, word, '=', out)
    else if HasSecretPair(lower, word, ':') then HidesPair(lower, word, ':', out)
    else if IsSecretToken(word) then Hidden("", word, out)
    else out == word
  }

  /** What becomes of a word that follows a marker. */
  ghost predicate Pending(word: string, out: string) {
    if LongCore(word) then Hidden("", word, out) else out == word
  }

  /** The name of a secret and a separator at the end of the word. */
  ghost predicate Marker(lower: string -> string, word: string) {
    exists key :: (word == key + ":" || word == key + "=") && SecretKey(lower, key)
  }

  // ---- The tables ----

  lemma CutIsStrip(lower: string -> string, token: string, s: Stripped)
    ensures IsStripped(ReluxRules(lower), token, s) <==> Cut(token, s.lead, s.core, s.trail)
  {
    assert forall c :: c in WRAPPERS <==> Wraps(c);
  }

  /** The cut of a token is unique. */
  lemma CutUnique(lower: string -> string, token: string, lead: string, core: string, trail: string)
    requires Cut(token, lead, core, trail)
    ensures Strip(ReluxRules(lower), token) == Stripped(lead, core, trail)
  {
    var r, s := ReluxRules(lower), Stripped(lead, core, trail);
    CutIsStrip(lower, token, s);
    StripUnique(r, token, Strip(r, token), s);
  }

  lemma StripIsCut(lower: string -> string, token: string)
    ensures var s := Strip(ReluxRules(lower), token); Cut(token, s.lead, s.core, s.trail)
  {
    CutIsStrip(lower, token, Strip(ReluxRules(lower), token));
  }

  lemma HasIsIncludes(s: string, part: string)
    ensures Has(s, part) <==> Includes(s, part)
  {
    if pre, post :| s == pre + part + post {
      assert s[|pre|..|pre| + |part|] == part;
      assert OccursAt(part, s, |pre|);
    }
    if i :| 0 <= i <= |s| && OccursAt(part, s, i) {
      assert s == s[..i] + part + s[i + |part|..];
    }
  }

  lemma NameIsSecret(name: string)
    ensures NamesSecret(name) <==> SecretName(name)
  {
    forall f | f in SECRET_KEY_FRAGMENTS ensures Has(name, f) <==> Includes(name, f) {
      HasIsIncludes(name, f);
    }
    var fs := SECRET_KEY_FRAGMENTS;
    assert fs[0] == "key" && fs[1] == "token" && fs[2] == "secret" && fs[3] == "password";
    assert fs[4] == "passwd" && fs[5] == "auth" && fs[6] == "credential";
    if SecretName(name) {
      assert exists f | f in fs :: Includes(name, f);
      assert name != "";
    }
  }

  lemma PrefixTable()
    ensures var ps := SECRET_PREFIXES;
            && |ps| == 19
            && ps[0] == "sk-ant-" && ps[1] == "sk-" && ps[2] == "github_pat_" && ps[3] == "ghp_" && ps[4] == "gho_"
            && ps[5] == "ghu_" && ps[6] == "ghs_" && ps[7] == "ghr_" && ps[8] == "xoxb-" && ps[9] == "xoxp-"
            && ps[10] == "xoxa-" && ps[11] == "xoxs-" && ps[12] == "xapp-" && ps[13] == "glpat-" && ps[14] == "ya29."
            && ps[15] == "AKIA" && ps[16] == "ASIA" && ps[17] == "AIza" && ps[18] == "relux_agt_"
  {
  }

  lemma SecretIfPrefixed(core: string, p: string)
    requires p in SECRET_PREFIXES && p <= core && |core| >= 12
    ensures SecretToken(core)
  {
    PrefixTable();
    var i :| 0 <= i < |SECRET_PREFIXES| && SECRET_PREFIXES[i] == p;
  }

  lemma TokenIsSecret(core: string)
    ensures LooksLikeSecretToken(core) <==> SecretToken(core)
  {
    if LooksLikeSecretToken(core) {
      var p :| p in SECRET_PREFIXES && p <= core;
      SecretIfPrefixed(core, p);
    }
    if SecretToken(core) {
      PrefixTable();
      var i :| 0 <= i < 19 && SECRET_PREFIXES[i] <= core;
      assert SECRET_PREFIXES[i] in SECRET_PREFIXES;
    }
  }

  // ---- Words ----

  lemma KeyIsSecret(lower: string -> string, key: string)
    ensures ReluxRules(lower).secretKey(Strip(ReluxRules(lower), key).core) <==> SecretKey(lower, key)
  {
    var s := Strip(ReluxRules(lower), key);
    StripIsCut(lower, key);
    NameIsSecret(lower(s.core));
    if lead, core, trail :| Cut(key, lead, core, trail) && SecretName(lower(core)) {
      CutUnique(lower, key, lead, core, trail);
    }
  }

  lemma CoreIsLong(lower: string -> string, value: string)
    ensures |Strip(ReluxRules(lower), value).core| >= 6 <==> LongCore(value)
  {
    StripIsCut(lower, value);
    if lead, core, trail :| Cut(value, lead, core, trail) && |core| >= 6 {
      CutUnique(lower, value, lead, core, trail);
    }
  }

  lemma MaskHides(lower: string -> string, front: string, value: string)
    ensures Hidden(front, value, front + Mask(ReluxRules(lower), Strip(ReluxRules(lower), value)))
  {
    var s := Strip(ReluxRules(lower), value);
    StripIsCut(lower, value);
    assert front + (s.lead + "***REDACTED***" + s.trail) == front + s.lead + "***REDACTED***" + s.trail;
  }

  lemma MasksMeans(lower: string -> string, key: string, value: string)
    ensures Masks(ReluxRules(lower), key, value) <==> SecretValue(lower, key, value)
  {
    KeyIsSecret(lower, Trim(key));
    CoreIsLong(lower, value);
  }

  lemma SplitUnique(word: string, sep: char, key: string, value: string, key': string, value': string)
    requires SplitAt(word, key, sep, value) && SplitAt(word, key', sep, value')
    ensures key == key' && value == value'
  {
    FirstIndex(key, sep, value);
    FirstIndex(key', sep, value');
    assert word[..|key|] == key && word[..|key'|] == key';
    assert word[|key| + 1..] == value && word[|key'| + 1..] == value';
  }

  /** A word has one place where a separator comes first, so only that pair matters. */
  lemma PairAtSplit(lower: string -> string, word: string, key: string, sep: char, value: string)
    requires SplitAt(word, key, sep, value)
    ensures HasSecretPair(lower, word, sep) <==> SecretValue(lower, key, value)
  {
    if SecretValue(lower, key, value) {
      assert SecretPair(lower, word, key, sep, value);
    }
    if key', value' :| SecretPair(lower, word, key', sep, value') {
      SplitUnique(word, sep, key, value, key', value');
    }
  }

  lemma NoPairWithout(lower: string -> string, word: string, sep: char)
    requires sep !in word
    ensures !HasSecretPair(lower, word, sep)
  {
    forall key: string, value: string ensures word != key + [sep] + value {
      assert (key + [sep] + value)[|key|] == sep;
    }
  }

  /** An attempt at a separator succeeds exactly when the word is such a pair, and then hides its value. */
  lemma TryPairMeans(lower: string -> string, word: string, sep: char)
    ensures TryPair(ReluxRules(lower), word, sep).Some? <==> HasSecretPair(lower, word, sep)
    ensures TryPair(ReluxRules(lower), word, sep).Some? ==>
              HidesPair(lower, word, sep, TryPair(ReluxRules(lower), word, sep).value)
  {
    var r := ReluxRules(lower);
    if sep in word {
      var key, value := PairShape(word, sep);
      TryPairAt(r, key, sep, value);
      MasksMeans(lower, key, value);
      PairAtSplit(lower, word, key, sep, value);
      if SecretValue(lower, key, value) {
        MaskHides(lower, key + [sep], value);
        assert SecretPair(lower, word, key, sep, value);
      }
    } else {
      NoPairWithout(lower, word, sep);
    }
  }

  /** The word rule, said outright. */
  lemma WordMeans(lower: string -> string, word: string, pending: bool)
    ensures var out := RedactOne(ReluxRules(lower), word, pending);
            if pending then Pending(word, out) else Plain(lower, word, out)
  {
    var r := ReluxRules(lower);
    var s := Strip(r, word);
    MaskHides(lower, "", word);
    assert "" + Mask(r, s) == Mask(r, s);
    if pending {
      CoreIsLong(lower, word);
    } else {
      TryPairMeans(lower, word, '=');
      TryPairMeans(lower, word, ':');
      StripIsCut(lower, word);
      TokenIsSecret(s.core);
      if lead, core, trail :| Cut(word, lead, core, trail) && SecretToken(core) {
        CutUnique(lower, word, lead, core, trail);
      }
    }
  }

  lemma MarkerAt(lower: string -> string, key: string, c: char)
    ensures IsSecretKeyMarker(ReluxRules(lower), key + [c]) <==> (c == ':' || c == '=') && SecretKey(lower, key)
  {
    var word := key + [c];
    assert word[..|word| - 1] == key;
    KeyIsSecret(lower, key);
  }

  /** A word announces a value exactly when it is a marker. */
  lemma MarkerMeans(lower: string -> string, word: string)
    ensures IsSecretKeyMarker(ReluxRules(lower), word) <==> Marker(lower, word)
  {
    if word != "" {
      var key, c := word[..|word| - 1], word[|word| - 1];
      assert word == key + [c];
      MarkerAt(lower, key, c);
      forall k | word == k + ":" || word == k + "=" ensures k == key {
        assert |word| == |k| + 1;
      }
    }
  }

  // ---- Lines ----

  /** The nearest word before position `i` is a marker. */
  ghost predicate AfterMarker(lower: string -> string, ts: seq<Token>, i: nat)
    requires i <= |ts|
  {
    exists j :: 0 <= j < i && ts[j].Word? && Marker(lower, ts[j].w) && forall k | j < k < i :: ts[k].Gap?
  }

  /** Gaps stay; a word after a marker is treated as a value, any other word by itself. */
  ghost predicate Scrubbed(lower: string -> string, ts: seq<Token>, us: seq<Token>) {
    && |us| == |ts|
    && forall i | 0 <= i < |ts| ::
         if ts[i].Gap? then us[i] == ts[i]
         else us[i].Word? && if AfterMarker(lower, ts, i) then Pending(ts[i].w, us[i].w) else Plain(lower, ts[i].w, us[i].w)
  }

  lemma PendingIsAfterMarker(lower: string -> string, ts: seq<Token>, i: nat)
    requires i <= |ts|
    ensures PendingAt(ReluxPass(ReluxRules(lower)), ts, false, i) <==> AfterMarker(lower, ts, i)
  {
    var f := ReluxPass(ReluxRules(lower));
    NearestDecides(f, ts, i);
    forall j | 0 <= j < i && ts[j].Word? ensures f.marks(ts[j].w) <==> Marker(lower, ts[j].w) {
      MarkerMeans(lower, ts[j].w);
    }
  }

  /** The flag is set exactly when the nearest word before it sets it. */
  lemma {:induction false} NearestDecides(f: Pass, ts: seq<Token>, i: nat)
    requires i <= |ts|
    ensures PendingAt(f, ts, false, i) <==>
              exists j :: 0 <= j < i && ts[j].Word? && f.marks(ts[j].w) && forall k | j < k < i :: ts[k].Gap?
  {
    if i > 0 {
      NearestDecides(f, ts, i - 1);
      if ts[i - 1].Gap? {
        if j :| 0 <= j < i - 1 && ts[j].Word? && f.marks(ts[j].w) && forall k | j < k < i - 1 :: ts[k].Gap? {
          assert forall k | j < k < i :: ts[k].Gap?;
        }
      }
    }
  }

  /** What the scrubber makes of a line put together from words and gaps. */
  lemma LineMeans(lower: string -> string, ts: seq<Token>) returns (us: seq<Token>)
    requires WellFormed(ts)
    ensures RedactLine(lower, Render(ts)) == Render(us) && Scrubbed(lower, ts, us)
  {
    var f := ReluxPass(ReluxRules(lower));
    us := MapTokens(f, ts, false);
    TokensOfRender(ts);
    ScanIsTokenwise(f, Render(ts), "", false);
    if ts != [] {
      MapTokensAt(f, ts, false, 0);
    }
    forall i | 0 <= i < |ts|
      ensures if ts[i].Gap? then us[i] == ts[i]
              else us[i].Word? && if AfterMarker(lower, ts, i) then Pending(ts[i].w, us[i].w) else Plain(lower, ts[i].w, us[i].w)
    {
      MapTokensAt(f, ts, false, i);
      PendingIsAfterMarker(lower, ts, i);
      if ts[i].Word? {
        WordMeans(lower, ts[i].w, PendingAt(f, ts, false, i));
      }
    }
  }

  /** That says all: a word has one outcome in each case. */
  lemma OutcomeUnique(lower: string -> string, word: string, out1: string, out2: string)
    ensures Plain(lower, word, out1) && Plain(lower, word, out2) ==> out1 == out2
    ensures Pending(word, out1) && Pending(word, out2) ==> out1 == out2
  {
    HiddenUnique(lower, "", word, out1, out2);
    if HasSecretPair(lower, word, '=') && Plain(lower, word, out1) && Plain(lower, word, out2) {
      HidesUnique(lower, word, '=', out1, out2);
    } else if HasSecretPair(lower, word, ':') && Plain(lower, word, out1) && Plain(lower, word, out2) {
      HidesUnique(lower, word, ':', out1, out2);
    }
  }

  lemma HiddenUnique(lower: string -> string, front: string, value: string, out1: string, out2: string)
    ensures Hidden(front, value, out1) && Hidden(front, value, out2) ==> out1 == out2
  {
    if Hidden(front, value, out1) && Hidden(front, value, out2) {
      var lead, core, trail :| Cut(value, lead, core, trail) && out1 == front + lead + "***REDACTED***" + trail;
      CutUnique(lower, value, lead, core, trail);
      var lead', core', trail' :| Cut(value, lead', core', trail') && out2 == front + lead' + "***REDACTED***" + trail';
      CutUnique(lower, value, lead', core', trail');
    }
  }

  lemma HidesUnique(lower: string -> string, word: string, sep: char, out1: string, out2: string)
    requires HidesPair(lower, word, sep, out1) && HidesPair(lower, word, sep, out2)
    ensures out1 == out2
  {
    var key, value :| SecretPair(lower, word, key, sep, value) && Hidden(key + [sep], value, out1);
    var key', value' :| SecretPair(lower, word, key', sep, value') && Hidden(key' + [sep], value', out2);
    SplitUnique(word, sep, key, value, key', value');
    HiddenUnique(lower, key + [sep], value, out1, out2);
  }

  /**
   A value behind a secret name comes out as its wrappers around the placeholder, quoted or not. The name
   ends at the first '=', or, when there is no '=', at the first ':'.
   */
  lemma SecretValueHidden(
      lower: string -> string, key: string, sep: char, value: string,
      before: string, name: string, after: string, lead: string, core: string, trail: string, out: string)
    requires sep == '=' || (sep == ':' && '=' !in key && '=' !in value)
    requires sep !in key && Cut(Trim(key), before, name, after) && SecretName(lower(name))
    requires value != "" && value[0] != '/' && Cut(value, lead, core, trail) && |core| >= 6
    requires Plain(lower, key + [sep] + value, out)
    ensures out == key + [sep] + lead + "***REDACTED***" + trail
  {
    var word := key + [sep] + value;
    assert SecretPair(lower, word, key, sep, value);
    assert Hidden(key + [sep], value, key + [sep] + lead + "***REDACTED***" + trail);
    if sep == ':' {
      NoPairWithout(lower, word, '=');
    }
    HidesUnique(lower, word, sep, out, key + [sep] + lead + "***REDACTED***" + trail);
  }

  /** A word that does not show the placeholder yet is left alone exactly when it is no secret pair and no token. */
  lemma LeftAloneExactly(lower: string -> string, word: string, out: string)
    requires Plain(lower, word, out) && !Has(word, "***REDACTED***")
    ensures out == word <==>
              !HasSecretPair(lower, word, '=') && !HasSecretPair(lower, word, ':') && !IsSecretToken(word)
  {
    if HasSecretPair(lower, word, '=') {
      var key, value :| SecretPair(lower, word, key, '=', value) && Hidden(key + ['='], value, out);
      HiddenShows(key + ['='], value, out);
    } else if HasSecretPair(lower, word, ':') {
      var key, value :| SecretPair(lower, word, key, ':', value) && Hidden(key + [':'], value, out);
      HiddenShows(key + [':'], value, out);
    } else if IsSecretToken(word) {
      HiddenShows("", word, out);
    }
  }

  lemma HiddenShows(front: string, value: string, out: string)
    requires Hidden(front, value, out)
    ensures Has(out, "***REDACTED***")
  {
    var lead, core, trail :| Cut(value, lead, core, trail) && out == front + lead + "***REDACTED***" + trail;
    var pre := front + lead;
    assert out == pre + "***REDACTED***" + trail;
  }

  /** A line that is one word. */
  lemma OneWord(lower: string -> string, word: string)
    requires IsWord(word)
    ensures Plain(lower, word, RedactLine(lower, word))
  {
    var us := LineMeans(lower, [Word(word)]);
    FirstWord(lower, word, us);
    RenderOne(word);
    RenderOne(us[0].w);
  }

  lemma FirstWord(lower: string -> string, word: string, us: seq<Token>)
    requires Scrubbed(lower, [Word(word)], us)
    ensures us == [us[0]] && us[0].Word? && Plain(lower, word, us[0].w)
  {
    assert !AfterMarker(lower, [Word(word)], 0);
    assert [Word(word)][0] == Word(word);
  }

  lemma RenderOne(word: string)
    ensures Render([Word(word)]) == word
  {
    assert [Word(word)][1..] == [];
    assert word + "" == word;
  }

  /** A quoted secret is hidden inside its quotes. */
  lemma QuotedSecret(lower: string -> string, key: string, core: string)
    requires key != "" && Cut(key, "", key, "") && NoSpace(key) && '=' !in key && SecretName(lower(key))
    requires Cut(core, "", core, "") && NoSpace(core) && |core| >= 6
    ensures RedactLine(lower, key + ['='] + (['"'] + core + ['"'])) ==
            key + ['='] + ['"'] + "***REDACTED***" + ['"']
  {
    var value := ['"'] + core + ['"'];
    var word := key + ['='] + value;
    OneWord(lower, word);
    SecretValueHidden(lower, key, '=', value, "", key, "", ['"'], core, ['"'], RedactLine(lower, word));
  }

  // ---- Texts ----

  /** A text without line breaks is one line. */
  lemma OneLine(lower: string -> string, line: string)
    requires '\n' !in line
    ensures RedactSecrets(lower, line) == RedactLine(lower, line)
  {
    SplitLine(line, "");
  }

  lemma JoinCons(line: string, parts: seq<string>)
    requires |parts| > 0
    ensures Join([line] + parts) == line + ['\n'] + Join(parts)
  {
    assert ([line] + parts)[1..] == parts;
  }

  function Mapped(f: string -> string, parts: seq<string>): seq<string> {
    seq(|parts|, i requires 0 <= i < |parts| => f(parts[i]))
  }

  lemma MappedCons(f: string -> string, line: string, parts: seq<string>)
    ensures Mapped(f, [line] + parts) == [f(line)] + Mapped(f, parts)
  {
  }

  lemma TextIsMapped(lower: string -> string, text: string)
    ensures RedactSecrets(lower, text) == Join(Mapped((line: string) => RedactLine(lower, line), Split(text)))
  {
    var parts := Split(text);
    var f := (line: string) => RedactLine(lower, line);
    assert seq(|parts|, i requires 0 <= i < |parts| => RedactLine(lower, parts[i])) == Mapped(f, parts);
    if text == "" {
      assert Mapped(f, [""]) == [RedactLine(lower, "")];
    }
  }

  /** A line break stays, the line before it is scrubbed by itself, and the rest as a text of its own. */
  lemma LineByLine(lower: string -> string, line: string, rest: string)
    requires '\n' !in line
    ensures RedactSecrets(lower, line + ['\n'] + rest) ==
            RedactLine(lower, line) + ['\n'] + RedactSecrets(lower, rest)
  {
    var f := (l: string) => RedactLine(lower, l);
    SplitLine(line, rest);
    TextIsMapped(lower, line + ['\n'] + rest);
    TextIsMapped(lower, rest);
    MappedCons(f, line, Split(rest));
    JoinCons(f(line), Mapped(f, Split(rest)));
  }
}
