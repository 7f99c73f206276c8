/**
 The word rules of the secret scrubber in apps/dashboard/src/redact.ts.

 The rules are written over a record of their four tables, so that the proofs see only the facts they
 use; `ReluxRules` is the record the dashboard has. `lower` stands for JavaScript's `toLowerCase`,
 which is left open: every result holds for any function of that type.
 */
module RedactWords {
  import opened JsText
  import opened Options

  /** A token cut into its leading wrappers, its core and its trailing wrappers. */
  datatype Stripped = Stripped(lead: string, core: string, trail: string)

  /** Which characters wrap a token, which key cores and token cores are secret, what replaces a value. */
  datatype Rules = Rules(
    wrappers: set<char>, secretKey: string -> bool, secretToken: string -> bool, placeholder: string)

  const PLACEHOLDER: string := "***REDACTED***"

  const SECRET_PREFIXES: seq<string> := [
    "sk-ant-", "sk-", "github_pat_", "ghp_", "gho_", "ghu_", "ghs_", "ghr_", "xoxb-", "xoxp-",
    "xoxa-", "xoxs-", "xapp-", "glpat-", "ya29.", "AKIA", "ASIA", "AIza", "relux_agt_"]

  const SECRET_KEY_FRAGMENTS: seq<string> :=
    ["key", "token", "secret", "password", "passwd", "auth", "credential"]

  const WRAPPERS: set<char> :=
    {'"', '\'', '`', '(', ')', '[', ']', '{', '}', ',', ';', '.', '<', '>'}

  predicate LooksLikeSecretToken(token: string) {
    |token| >= 12 && exists p | p in SECRET_PREFIXES :: p <= token
  }

  predicate OccursAt(fragment: string, s: string, i: nat) {
    i + |fragment| <= |s| && s[i..i + |fragment|] == fragment
  }

  predicate Includes(s: string, fragment: string) {
    exists i | 0 <= i <= |s| :: OccursAt(fragment, s, i)
  }

  /** A normalised key names a secret. */
  predicate NamesSecret(norm: string) {
    norm != "" && exists f | f in SECRET_KEY_FRAGMENTS :: Includes(norm, f)
  }

  function ReluxRules(lower: string -> string): Rules {
    Rules(WRAPPERS, core => NamesSecret(lower(core)), core => LooksLikeSecretToken(core), PLACEHOLDER)
  }

  /** What the proofs need of the tables. */
  ghost predicate Coherent(r: Rules) {
    && ':' !in r.wrappers && '=' !in r.wrappers && '/' !in r.wrappers
    && |r.placeholder| >= 6 && BareEnds(r, r.placeholder)
    && ':' !in r.placeholder && '=' !in r.placeholder && r.placeholder[0] != '/'
    && !r.secretToken(r.placeholder)
  }

  /** A token-prefix match is only tried on cores longer than the shortest value that is masked. */
  ghost predicate SecretTokensAreLong(r: Rules) {
    forall core | r.secretToken(core) :: |core| >= 6
  }

  lemma ReluxRulesCoherent(lower: string -> string)
    ensures Coherent(ReluxRules(lower)) && SecretTokensAreLong(ReluxRules(lower))
  {
    assert PLACEHOLDER[0] == '*';
    forall p | p in SECRET_PREFIXES ensures !(p <= PLACEHOLDER) {
      assert p[0] != '*';
    }
  }

  /** Only wrapper characters. */
  predicate AllWrappers(r: Rules, s: string) {
    forall i | 0 <= i < |s| :: s[i] in r.wrappers
  }

  /** Neither end is a wrapper. */
  predicate BareEnds(r: Rules, s: string) {
    s != "" ==> s[0] !in r.wrappers && s[|s| - 1] !in r.wrappers
  }

  /** What a stripping is: the cut is exhaustive on both sides, and an all-wrapper token is all lead. */
  predicate IsStripped(r: Rules, token: string, s: Stripped) {
    && token == s.lead + s.core + s.trail
    && AllWrappers(r, s.lead) && AllWrappers(r, s.trail)
    && BareEnds(r, s.core)
    && (s.core == "" ==> s.trail == "")
  }

  function LeadEnd(r: Rules, token: string, i: nat): (n: nat)
    requires i <= |token|
    ensures i <= n <= |token|
    ensures forall k | i <= k < n :: token[k] in r.wrappers
    ensures n < |token| ==> token[n] !in r.wrappers
    decreases |token| - i
  {
    if i == |token| || token[i] !in r.wrappers then i else LeadEnd(r, token, i + 1)
  }

  function TrailStart(r: Rules, token: string, start: nat, end: nat): (n: nat)
    requires start <= end <= |token|
    ensures start <= n <= end
    ensures forall k | n <= k < end :: token[k] in r.wrappers
    ensures n > start ==> token[n - 1] !in r.wrappers
    decreases end
  {
    if end == start || token[end - 1] !in r.wrappers then end
    else TrailStart(r, token, start, end - 1)
  }

  /** Cutting at two such ends is a stripping. */
  lemma CutIsStripped(r: Rules, token: string, start: nat, end: nat)
    requires start <= end <= |token|
    requires forall k | 0 <= k < start :: token[k] in r.wrappers
    requires forall k | end <= k < |token| :: token[k] in r.wrappers
    requires start < |token| ==> token[start] !in r.wrappers
    requires end > start ==> token[end - 1] !in r.wrappers
    ensures IsStripped(r, token, Stripped(token[..start], token[start..end], token[end..]))
  {
    var core := token[start..end];
    assert token == token[..start] + core + token[end..];
    assert core != "" ==> core[0] == token[start] && core[|core| - 1] == token[end - 1];
  }

  function Strip(r: Rules, token: string): (s: Stripped)
    ensures IsStripped(r, token, s)
  {
    var start := LeadEnd(r, token, 0);
    var end := TrailStart(r, token, start, |token|);
    CutIsStripped(r, token, start, end);
    Stripped(token[..start], token[start..end], token[end..])
  }

  /** The two index loops compute the one exhaustive cut. */
  method StripWrappers(r: Rules, token: string) returns (s: Stripped)
    ensures IsStripped(r, token, s)
    ensures s == Strip(r, token)
  {
    var start := 0;
    while start < |token| && token[start] in r.wrappers
      invariant 0 <= start <= |token|
      invariant forall k | 0 <= k < start :: token[k] in r.wrappers
    {
      start := start + 1;
    }
    var end := |token|;
    while end > start && token[end - 1] in r.wrappers
      invariant start <= end <= |token|
      invariant forall k | end <= k < |token| :: token[k] in r.wrappers
    {
      end := end - 1;
    }
    s := Stripped(token[..start], token[start..end], token[end..]);
    StripUnique(r, token, s, Strip(r, token));
  }

  /** There is only one exhaustive cut, so it determines the three parts. */
  lemma StripUnique(r: Rules, token: string, s: Stripped, t: Stripped)
    requires IsStripped(r, token, s) && IsStripped(r, token, t)
    ensures s == t
  {
    LeadsAgree(r, token, s, t);
    LeadsAgree(r, token, t, s);
    assert s.lead == token[..|s.lead|] == token[..|t.lead|] == t.lead;
    if s.core != "" {
      TrailsAgree(r, token, s, t);
      TrailsAgree(r, token, t, s);
      assert s.trail == token[|token| - |s.trail|..] == token[|token| - |t.trail|..] == t.trail;
    }
    assert s.core == token[|s.lead|..|token| - |s.trail|];
    assert t.core == token[|t.lead|..|token| - |t.trail|];
  }

  lemma LeadsAgree(r: Rules, token: string, s: Stripped, t: Stripped)
    requires IsStripped(r, token, s) && IsStripped(r, token, t)
    ensures |s.lead| <= |t.lead|
  {
    assert t.core != "" ==> token[|t.lead|] == t.core[0];
    assert forall i | 0 <= i < |s.lead| :: token[i] == s.lead[i];
  }

  lemma TrailsAgree(r: Rules, token: string, s: Stripped, t: Stripped)
    requires IsStripped(r, token, s) && IsStripped(r, token, t) && s.lead == t.lead
    requires s.core != ""
    ensures t.core != "" && |s.trail| <= |t.trail|
  {
    assert |token| == |t.lead| + |t.core| + |t.trail|;
    assert token[|token| - |t.trail| - 1] == t.core[|t.core| - 1];
    assert forall i | 0 <= i < |s.trail| :: token[|token| - |s.trail| + i] == s.trail[i];
  }

  predicate KeyNamesSecret(r: Rules, key: string) {
    r.secretKey(Strip(r, key).core)
  }

  /** A secret key that ends its word with a separator, so that the word after it is the value. */
  predicate IsSecretKeyMarker(r: Rules, word: string) {
    word != "" && word[|word| - 1] in {':', '='} && KeyNamesSecret(r, word[..|word| - 1])
  }

  function IndexFrom(s: string, c: char, i: nat): (n: nat)
    requires i <= |s|
    ensures i <= n <= |s|
    ensures forall k | i <= k < n :: s[k] != c
    ensures n < |s| ==> s[n] == c
    decreases |s| - i
  {
    if i == |s| || s[i] == c then i else IndexFrom(s, c, i + 1)
  }

  /** The first index of a character, or -1. */
  function IndexOf(s: string, c: char): (n: int)
    ensures n == -1 <==> c !in s
    ensures n != -1 ==> 0 <= n < |s| && s[n] == c && forall k | 0 <= k < n :: s[k] != c
  {
    var n := IndexFrom(s, c, 0);
    if n == |s| then -1 else n
  }

  /** The value part masked inside its wrappers. */
  function Mask(r: Rules, s: Stripped): string {
    s.lead + r.placeholder + s.trail
  }

  /** An attempt masks a value that is neither empty nor URL-like nor short, behind a secret-named key. */
  predicate Masks(r: Rules, key: string, value: string) {
    && value != "" && value[0] != '/'
    && r.secretKey(Strip(r, Trim(key)).core) && |Strip(r, value).core| >= 6
  }

  /** One separator's attempt, none when the separator is absent or nothing is to be masked. */
  function TryPair(r: Rules, word: string, sep: char): Option<string> {
    var idx := IndexOf(word, sep);
    if idx < 0 then None
    else
      var key, value := word[..idx], word[idx + 1..];
      if Masks(r, key, value) then Some(key + [sep] + Mask(r, Strip(r, value))) else None
  }

  function RedactKeyValue(r: Rules, word: string): Option<string> {
    var eq := TryPair(r, word, '=');
    if eq.Some? then eq else TryPair(r, word, ':')
  }

  function RedactWord(r: Rules, word: string): string {
    var kv := RedactKeyValue(r, word);
    if kv.Some? then kv.value
    else if r.secretToken(Strip(r, word).core) then Mask(r, Strip(r, word))
    else word
  }

  function RedactPendingValue(r: Rules, word: string): string {
    if |Strip(r, word).core| >= 6 then Mask(r, Strip(r, word)) else word
  }

  /** The rule `flush` applies: the pending flag chooses between the two. */
  function RedactOne(r: Rules, word: string, pending: bool): string {
    if pending then RedactPendingValue(r, word) else RedactWord(r, word)
  }

  // ---- Facts about masked values ----

  lemma MaskStrips(r: Rules, s: Stripped)
    requires Coherent(r)
    requires AllWrappers(r, s.lead) && AllWrappers(r, s.trail)
    ensures Strip(r, Mask(r, s)) == Stripped(s.lead, r.placeholder, s.trail)
    ensures '=' !in Mask(r, s) && ':' !in Mask(r, s)
    ensures Mask(r, s)[0] != '/'
  {
    StripUnique(r, Mask(r, s), Strip(r, Mask(r, s)), Stripped(s.lead, r.placeholder, s.trail));
  }

  /** A masked word is left alone by both rules. */
  lemma MaskFixed(r: Rules, s: Stripped, pending: bool)
    requires Coherent(r)
    requires AllWrappers(r, s.lead) && AllWrappers(r, s.trail)
    ensures RedactOne(r, Mask(r, s), pending) == Mask(r, s)
  {
    MaskStrips(r, s);
  }

  /** The core of a token contains every stretch of it that has bare ends. */
  lemma CoreCovers(r: Rules, token: string, lo: nat, hi: nat)
    requires lo < hi <= |token|
    requires token[lo] !in r.wrappers && token[hi - 1] !in r.wrappers
    ensures |Strip(r, token).core| >= hi - lo
  {
    CutCovers(r, token, Strip(r, token), lo, hi);
  }

  lemma CutCovers(r: Rules, token: string, s: Stripped, lo: nat, hi: nat)
    requires IsStripped(r, token, s) && lo < hi <= |token|
    requires token[lo] !in r.wrappers && token[hi - 1] !in r.wrappers
    ensures |s.core| >= hi - lo
  {
    BareIsInCore(r, token, s, lo);
    BareIsInCore(r, token, s, hi - 1);
  }

  /** A character that is no wrapper stands in the core. */
  lemma BareIsInCore(r: Rules, token: string, s: Stripped, i: nat)
    requires IsStripped(r, token, s) && i < |token| && token[i] !in r.wrappers
    ensures |s.lead| <= i < |s.lead| + |s.core|
  {
    var n := |s.lead| + |s.core|;
    assert forall k | 0 <= k < |s.lead| :: token[k] == s.lead[k];
    assert forall k | n <= k < |token| :: token[k] == s.trail[k - n];
  }

  /** A core inside a suffix of a token is covered by the token's own core. */
  lemma SuffixCoreCovers(r: Rules, token: string, from: nat)
    requires from <= |token|
    ensures |Strip(r, token).core| >= |Strip(r, token[from..]).core|
  {
    var s := Strip(r, token[from..]);
    if s.core != "" {
      var lo := from + |s.lead|;
      var hi := lo + |s.core|;
      assert token[lo] == token[from..][|s.lead|] == s.core[0];
      assert token[hi - 1] == token[from..][|s.lead| + |s.core| - 1] == s.core[|s.core| - 1];
      CoreCovers(r, token, lo, hi);
    }
  }

  // ---- One separator ----

  lemma FirstIndex(key: string, sep: char, value: string)
    requires sep !in key
    ensures IndexOf(key + [sep] + value, sep) == |key|
  {
    var w := key + [sep] + value;
    assert w[|key|] == sep;
    assert forall k | 0 <= k < |key| :: w[k] == key[k];
  }

  /** Evaluating an attempt on a word given as key, separator and value. */
  lemma TryPairAt(r: Rules, key: string, sep: char, value: string)
    requires sep !in key
    ensures TryPair(r, key + [sep] + value, sep) ==
            if Masks(r, key, value) then Some(key + [sep] + Mask(r, Strip(r, value))) else None
  {
    FirstIndex(key, sep, value);
    var w := key + [sep] + value;
    assert w[..|key|] == key;
    assert w[|key| + 1..] == value;
  }

  /** Every word that holds the separator has that form. */
  lemma PairShape(word: string, sep: char) returns (key: string, value: string)
    requires sep in word
    ensures word == key + [sep] + value && sep !in key
    ensures value == word[|key| + 1..]
  {
    var idx := IndexOf(word, sep);
    key, value := word[..idx], word[idx + 1..];
  }

  /** A masked value may be masked again: its key still applies and the result is the same. */
  lemma MaskAgain(r: Rules, key: string, value: string)
    requires Coherent(r) && Masks(r, key, value)
    ensures var m := Mask(r, Strip(r, value)); Masks(r, key, m) && Mask(r, Strip(r, m)) == m
  {
    MaskStrips(r, Strip(r, value));
  }

  /**
   Masking after ':' never lets a failed '=' attempt succeed. Either no '=' is left, or it stands
   before the ':' and then its value started the same way and already had a long core.
   */
  lemma EqualsStaysFailed(r: Rules, key: string, value: string)
    requires Coherent(r)
    requires ':' !in key && Masks(r, key, value)
    requires TryPair(r, key + [':'] + value, '=').None?
    ensures TryPair(r, key + [':'] + Mask(r, Strip(r, value)), '=').None?
  {
    MaskStrips(r, Strip(r, value));
    EqualsFailsStill(r, key, value, Mask(r, Strip(r, value)));
  }

  lemma EqualsFailsStill(r: Rules, key: string, value: string, m: string)
    requires '=' !in m && |Strip(r, value).core| >= 6
    requires TryPair(r, key + [':'] + value, '=').None?
    ensures TryPair(r, key + [':'] + m, '=').None?
  {
    if '=' !in key {
      assert '=' !in key + [':'] && '=' !in key + [':'] + m;
    } else {
      EqualsInKey(r, key, value, m);
    }
  }

  lemma EqualsInKey(r: Rules, key: string, value: string, m: string)
    requires '=' in key && |Strip(r, value).core| >= 6
    requires TryPair(r, key + [':'] + value, '=').None?
    ensures TryPair(r, key + [':'] + m, '=').None?
  {
    var k1, k2 := PairShape(key, '=');
    Regroup(k1, k2, value);
    Regroup(k1, k2, m);
    EqualsBefore(r, k1, k2, value, m);
  }

  lemma Regroup(k1: string, k2: string, x: string)
    ensures (k1 + ['='] + k2) + [':'] + x == k1 + ['='] + (k2 + [':'] + x)
  {
  }

  lemma EqualsBefore(r: Rules, k1: string, k2: string, value: string, m: string)
    requires '=' !in k1 && |Strip(r, value).core| >= 6
    requires TryPair(r, k1 + ['='] + (k2 + [':'] + value), '=').None?
    ensures TryPair(r, k1 + ['='] + (k2 + [':'] + m), '=').None?
  {
    var rest, rest' := k2 + [':'] + value, k2 + [':'] + m;
    TryPairAt(r, k1, '=', rest);
    TryPairAt(r, k1, '=', rest');
    SuffixCoreCovers(r, rest, |k2| + 1);
    assert rest[|k2| + 1..] == value;
    assert rest[0] == rest'[0];
  }

  /** A masked key/value word is a fixed point of the two-separator rule. */
  lemma KeyValueFixed(r: Rules, word: string)
    requires Coherent(r)
    requires RedactKeyValue(r, word).Some?
    ensures var out := RedactKeyValue(r, word).value; RedactKeyValue(r, out) == Some(out)
  {
    var sep := PairSeparator(r, word);
    var key, value := PairShape(word, sep);
    TryPairAt(r, key, sep, value);
    MaskAgain(r, key, value);
    TryPairAt(r, key, sep, Mask(r, Strip(r, value)));
    if sep == ':' {
      EqualsStaysFailed(r, key, value);
    }
  }

  /** The separator whose attempt succeeded. */
  function PairSeparator(r: Rules, word: string): (sep: char)
    requires RedactKeyValue(r, word).Some?
    ensures sep in word && TryPair(r, word, sep) == RedactKeyValue(r, word)
    ensures sep == '=' || (sep == ':' && TryPair(r, word, '=').None?)
  {
    if TryPair(r, word, '=').Some? then '=' else ':'
  }

  // ---- The two rules against each other ----

  lemma RedactWordFixed(r: Rules, word: string)
    requires Coherent(r)
    ensures RedactWord(r, RedactWord(r, word)) == RedactWord(r, word)
  {
    if RedactKeyValue(r, word).Some? {
      KeyValueFixed(r, word);
    } else if r.secretToken(Strip(r, word).core) {
      MaskFixed(r, Strip(r, word), false);
    }
  }

  /** A pair that can be masked makes the whole word's core at least as long as the value's. */
  lemma PairHasLongCore(r: Rules, word: string)
    requires RedactKeyValue(r, word).Some?
    ensures |Strip(r, word).core| >= 6
  {
    var sep := PairSeparator(r, word);
    var key, value := PairShape(word, sep);
    TryPairAt(r, key, sep, value);
    SuffixCoreCovers(r, word, |key| + 1);
  }

  /** The pending rule's output is a fixed point of the plain rule, so losing the flag is harmless. */
  lemma PendingThenPlain(r: Rules, word: string)
    requires Coherent(r) && SecretTokensAreLong(r)
    ensures RedactWord(r, RedactPendingValue(r, word)) == RedactPendingValue(r, word)
  {
    if |Strip(r, word).core| >= 6 {
      MaskFixed(r, Strip(r, word), false);
    } else if RedactKeyValue(r, word).Some? {
      PairHasLongCore(r, word);
    }
  }

  lemma PendingTwice(r: Rules, word: string)
    requires Coherent(r)
    ensures RedactPendingValue(r, RedactPendingValue(r, word)) == RedactPendingValue(r, word)
  {
    if |Strip(r, word).core| >= 6 {
      MaskFixed(r, Strip(r, word), true);
    }
  }

  lemma PairEndsMasked(r: Rules, word: string) returns (pre: string, s: Stripped)
    requires RedactKeyValue(r, word).Some?
    ensures RedactWord(r, word) == pre + Mask(r, s)
    ensures AllWrappers(r, s.lead) && AllWrappers(r, s.trail)
  {
    var sep := PairSeparator(r, word);
    var key, value := PairShape(word, sep);
    TryPairAt(r, key, sep, value);
    pre, s := key + [sep], Strip(r, value);
  }

  /** A rule either keeps the word or puts a masked value at its end. */
  lemma ChangedEndsMasked(r: Rules, word: string, pending: bool) returns (pre: string, s: Stripped)
    requires (!pending && RedactKeyValue(r, word).Some?) || RedactOne(r, word, pending) != word
    ensures RedactOne(r, word, pending) == pre + Mask(r, s)
    ensures AllWrappers(r, s.lead) && AllWrappers(r, s.trail)
  {
    if !pending && RedactKeyValue(r, word).Some? {
      pre, s := PairEndsMasked(r, word);
    } else {
      pre, s := "", Strip(r, word);
      assert pre + Mask(r, s) == Mask(r, s);
    }
  }

  lemma MaskLast(r: Rules, pre: string, s: Stripped)
    requires Coherent(r) && AllWrappers(r, s.trail)
    ensures var out := pre + Mask(r, s); out[|out| - 1] != ':' && out[|out| - 1] != '='
  {
    var m := Mask(r, s);
    var c := (pre + m)[|pre + m| - 1];
    assert c == m[|m| - 1];
    if s.trail == "" {
      assert c == r.placeholder[|r.placeholder| - 1];
    } else {
      assert c == s.trail[|s.trail| - 1];
    }
  }

  /** No pass creates a key marker: a rewritten word never ends in ':' or '='. */
  lemma NoNewMarker(r: Rules, word: string, pending: bool)
    requires Coherent(r)
    ensures var out := RedactOne(r, word, pending);
            IsSecretKeyMarker(r, out) ==> out == word && IsSecretKeyMarker(r, word)
  {
    if RedactOne(r, word, pending) != word {
      var pre, s := ChangedEndsMasked(r, word, pending);
      MaskLast(r, pre, s);
    }
  }

  /** Every combination of flags on the two passes that can occur keeps a redacted word. */
  lemma RedactOneFixed(r: Rules, word: string, pending: bool, pending': bool)
    requires Coherent(r) && SecretTokensAreLong(r)
    requires pending' ==> pending
    ensures var out := RedactOne(r, word, pending); RedactOne(r, out, pending') == out
  {
    if pending {
      PendingTwice(r, word);
      PendingThenPlain(r, word);
    } else {
      RedactWordFixed(r, word);
    }
  }

  // ---- What the output shows ----

  lemma MaskOccurs(r: Rules, pre: string, s: Stripped)
    ensures Includes(pre + Mask(r, s), r.placeholder)
  {
    var out, i := pre + Mask(r, s), |pre| + |s.lead|;
    assert out[i..i + |r.placeholder|] == r.placeholder;
    assert OccursAt(r.placeholder, out, i);
  }

  /** An output word is its input word, unless it shows the placeholder. */
  lemma KeptOrMasked(r: Rules, word: string, pending: bool)
    ensures var out := RedactOne(r, word, pending); out == word || Includes(out, r.placeholder)
  {
    if RedactOne(r, word, pending) != word {
      var pre, s := ChangedEndsMasked(r, word, pending);
      MaskOccurs(r, pre, s);
    }
  }

  /** A word that comes out without the placeholder has no recognisable secret token as its core. */
  lemma NoTokenLeft(r: Rules, word: string, pending: bool)
    requires SecretTokensAreLong(r)
    ensures var out := RedactOne(r, word, pending);
            Includes(out, r.placeholder) || !r.secretToken(Strip(r, out).core)
  {
    var out := RedactOne(r, word, pending);
    KeptOrMasked(r, word, pending);
    if out == word && r.secretToken(Strip(r, word).core) {
      if !pending && RedactKeyValue(r, word).Some? {
        var pre, s := ChangedEndsMasked(r, word, pending);
        MaskOccurs(r, pre, s);
      } else {
        MaskOccurs(r, "", Strip(r, word));
        assert out == "" + Mask(r, Strip(r, word));
      }
    }
  }

  /**
   The output carries nothing of a masked value but its wrappers: two values with the same wrappers
   behind the same secret-named key and separator give the same word.
   */
  lemma ValueNotLeaked(r: Rules, key: string, sep: char, value1: string, value2: string)
    requires sep == '=' || (sep == ':' && '=' !in key && '=' !in value1 && '=' !in value2)
    requires sep !in key && Masks(r, key, value1) && Masks(r, key, value2)
    requires Strip(r, value1).lead == Strip(r, value2).lead
    requires Strip(r, value1).trail == Strip(r, value2).trail
    ensures RedactWord(r, key + [sep] + value1) == RedactWord(r, key + [sep] + value2)
  {
    OnlyPair(r, key, sep, value1);
    OnlyPair(r, key, sep, value2);
  }

  lemma OnlyPair(r: Rules, key: string, sep: char, value: string)
    requires sep == '=' || (sep == ':' && '=' !in key && '=' !in value)
    requires sep !in key && Masks(r, key, value)
    ensures RedactWord(r, key + [sep] + value) == key + [sep] + Mask(r, Strip(r, value))
  {
    TryPairAt(r, key, sep, value);
    if sep == ':' {
      assert '=' !in key + [sep] + value;
    }
  }
}
