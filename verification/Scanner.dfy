/**
 The line scanner of apps/dashboard/src/redact.ts: it collects a word, and at its end emits what the
 word's rule says, choosing the rule by one bit of look-back. The scanner is written over the rule and
 the bit, which RedactLines.dfy instantiates.
 */
module Scanner {
  import opened JsText

  /** The word rule, given the pending flag, and whether a word sets the flag for the next one. */
  datatype Pass = Pass(one: (string, bool) -> string, marks: string -> bool)

  /** What the scanner still has to emit, given the unread rest, the word so far and the pending flag. */
  function Scan(f: Pass, rest: string, word: string, pending: bool): string
    decreases |rest|
  {
    if rest == "" then
      if word == "" then "" else f.one(word, pending)
    else if IsSpace(rest[0]) then
      if word == "" then [rest[0]] + Scan(f, rest[1..], "", pending)
      else f.one(word, pending) + ([rest[0]] + Scan(f, rest[1..], "", f.marks(word)))
    else Scan(f, rest[1..], word + [rest[0]], pending)
  }

  function ScannedLine(f: Pass, line: string): string {
    Scan(f, line, "", false)
  }

  /** The character loop with its three variables emits what `ScannedLine` says. */
  method ScanLine(f: Pass, line: string) returns (result: string)
    ensures result == ScannedLine(f, line)
  {
    result := "";
    var word := "";
    var valuePending := false;
    for i := 0 to |line|
      invariant result + Scan(f, line[i..], word, valuePending) == ScannedLine(f, line)
    {
      var ch := line[i];
      assert line[i..][0] == ch && line[i..][1..] == line[i + 1..];
      if IsSpace(ch) {
        if word != "" {
          result := result + f.one(word, valuePending);
          valuePending := f.marks(word);
          word := "";
        }
        result := result + [ch];
      } else {
        word := word + [ch];
      }
    }
    if word != "" {
      result := result + f.one(word, valuePending);
    }
  }

  // ---- Lines as tokens: an independent reading of the scanner ----

  /** A whitespace character or a maximal run of other characters. */
  datatype Token = Gap(c: char) | Word(w: string)

  predicate IsWord(w: string) {
    w != "" && forall i | 0 <= i < |w| :: !IsSpace(w[i])
  }

  /** A token list that some line cuts into: gaps are whitespace, words are maximal. */
  predicate WellFormed(ts: seq<Token>) {
    && (forall i | 0 <= i < |ts| :: if ts[i].Gap? then IsSpace(ts[i].c) else IsWord(ts[i].w))
    && (forall i | 0 <= i < |ts| - 1 :: ts[i].Gap? || ts[i + 1].Gap?)
  }

  function Render(ts: seq<Token>): string {
    if ts == [] then ""
    else (if ts[0].Gap? then [ts[0].c] else ts[0].w) + Render(ts[1..])
  }

  /** Cuts a line, with `word` already read. */
  function Tokens(rest: string, word: string): seq<Token>
    decreases |rest|
  {
    if rest == "" then
      if word == "" then [] else [Word(word)]
    else if IsSpace(rest[0]) then
      (if word == "" then [] else [Word(word)]) + [Gap(rest[0])] + Tokens(rest[1..], "")
    else Tokens(rest[1..], word + [rest[0]])
  }

  /** The rules applied along a token list; the flag looks back exactly one word. */
  function MapTokens(f: Pass, ts: seq<Token>, pending: bool): seq<Token> {
    if ts == [] then []
    else if ts[0].Gap? then [ts[0]] + MapTokens(f, ts[1..], pending)
    else [Word(f.one(ts[0].w, pending))] + MapTokens(f, ts[1..], f.marks(ts[0].w))
  }

  lemma RenderCons(t: Token, ts: seq<Token>)
    ensures Render([t] + ts) == (if t.Gap? then [t.c] else t.w) + Render(ts)
  {
    assert ([t] + ts)[1..] == ts;
  }

  lemma MapTokensCons(f: Pass, t: Token, ts: seq<Token>, pending: bool)
    ensures MapTokens(f, [t] + ts, pending) ==
            if t.Gap? then [t] + MapTokens(f, ts, pending)
            else [Word(f.one(t.w, pending))] + MapTokens(f, ts, f.marks(t.w))
  {
    assert ([t] + ts)[1..] == ts;
  }

  lemma WellFormedCons(t: Token, ts: seq<Token>)
    requires WellFormed(ts) && (if t.Gap? then IsSpace(t.c) else IsWord(t.w))
    requires ts == [] || t.Gap? || ts[0].Gap?
    ensures WellFormed([t] + ts)
  {
    assert forall i | 0 < i < |[t] + ts| :: ([t] + ts)[i] == ts[i - 1];
  }

  lemma {:induction false} TokensWellFormed(rest: string, word: string)
    requires word == "" || IsWord(word)
    ensures WellFormed(Tokens(rest, word))
    decreases |rest|
  {
    if rest == "" {
    } else if IsSpace(rest[0]) {
      var gap, after := Gap(rest[0]), Tokens(rest[1..], "");
      TokensWellFormed(rest[1..], "");
      WellFormedCons(gap, after);
      if word == "" {
        assert Tokens(rest, word) == [gap] + after;
      } else {
        assert Tokens(rest, word) == [Word(word)] + ([gap] + after);
        WellFormedCons(Word(word), [gap] + after);
      }
    } else {
      TokensWellFormed(rest[1..], word + [rest[0]]);
    }
  }

  lemma Uncons(rest: string)
    requires rest != ""
    ensures [rest[0]] + rest[1..] == rest
  {
  }

  lemma RenderGap(c: char, after: seq<Token>, rest: string, word: string)
    requires rest != "" && c == rest[0] && Render(after) == rest[1..]
    ensures Render([Gap(c)] + after) == rest
    ensures Render([Word(word)] + ([Gap(c)] + after)) == word + rest
  {
    RenderCons(Gap(c), after);
    Uncons(rest);
    RenderCons(Word(word), [Gap(c)] + after);
  }

  /** Rendering undoes the cut. */
  lemma {:induction false} RenderOfTokens(rest: string, word: string)
    ensures Render(Tokens(rest, word)) == word + rest
    decreases |rest|
  {
    if rest == "" {
      if word != "" {
        RenderCons(Word(word), []);
        assert [Word(word)] + [] == [Word(word)];
      }
    } else if IsSpace(rest[0]) {
      var after := Tokens(rest[1..], "");
      RenderOfTokens(rest[1..], "");
      assert "" + rest[1..] == rest[1..];
      RenderGap(rest[0], after, rest, word);
      if word == "" {
        assert Tokens(rest, word) == [Gap(rest[0])] + after;
        assert word + rest == rest;
      } else {
        assert Tokens(rest, word) == [Word(word)] + ([Gap(rest[0])] + after);
      }
    } else {
      RenderOfTokens(rest[1..], word + [rest[0]]);
    }
  }

  /** Reading a word off the front: it is collected character by character. */
  lemma {:induction false} TokensSkipWord(w: string, rest: string, word: string)
    requires forall i | 0 <= i < |w| :: !IsSpace(w[i])
    ensures Tokens(w + rest, word) == Tokens(rest, word + w)
  {
    if w == "" {
      assert w + rest == rest && word + w == word;
    } else {
      assert (w + rest)[0] == w[0] && (w + rest)[1..] == w[1..] + rest;
      TokensSkipWord(w[1..], rest, word + [w[0]]);
      assert word + [w[0]] + w[1..] == word + w;
    }
  }

  /** Cutting inverts rendering on well-formed token lists. */
  lemma {:induction false} TokensOfRender(ts: seq<Token>)
    requires WellFormed(ts)
    ensures Tokens(Render(ts), "") == ts
  {
    if ts != [] {
      var rest := ts[1..];
      assert WellFormed(rest) by {
        assert forall i | 0 <= i < |rest| :: rest[i] == ts[i + 1];
      }
      TokensOfRender(rest);
      assert ts == [ts[0]] + rest;
      if ts[0].Gap? {
        assert Render(ts)[1..] == Render(rest);
      } else {
        var w := ts[0].w;
        TokensSkipWord(w, Render(rest), "");
        assert "" + w == w;
        if rest != [] {
          TokensAfterWord(w, rest);
        }
      }
    }
  }

  lemma TokensAfterWord(w: string, rest: seq<Token>)
    requires IsWord(w) && rest != [] && rest[0].Gap? && IsSpace(rest[0].c)
    requires Tokens(Render(rest), "") == rest
    ensures Tokens(Render(rest), w) == [Word(w)] + rest
  {
    var s := Render(rest);
    assert s[0] == rest[0].c;
    assert Tokens(s, "") == [Gap(s[0])] + Tokens(s[1..], "");
    assert Tokens(s, w) == [Word(w)] + [Gap(s[0])] + Tokens(s[1..], "");
  }

  lemma MapGap(f: Pass, c: char, tail: seq<Token>, p: bool)
    ensures Render(MapTokens(f, [Gap(c)] + tail, p)) == [c] + Render(MapTokens(f, tail, p))
  {
    MapTokensCons(f, Gap(c), tail, p);
    RenderCons(Gap(c), MapTokens(f, tail, p));
  }

  lemma MapWord(f: Pass, w: string, tail: seq<Token>, p: bool)
    ensures Render(MapTokens(f, [Word(w)] + tail, p)) == f.one(w, p) + Render(MapTokens(f, tail, f.marks(w)))
  {
    MapTokensCons(f, Word(w), tail, p);
    RenderCons(Word(f.one(w, p)), MapTokens(f, tail, f.marks(w)));
  }

  /** The scanner is the rule mapped along the line's tokens. */
  lemma {:induction false} ScanIsTokenwise(f: Pass, rest: string, word: string, pending: bool)
    ensures Scan(f, rest, word, pending) == Render(MapTokens(f, Tokens(rest, word), pending))
    decreases |rest|
  {
    if rest == "" {
      if word != "" {
        MapWord(f, word, [], pending);
        assert [Word(word)] + [] == [Word(word)];
      }
    } else if IsSpace(rest[0]) {
      var tail := Tokens(rest[1..], "");
      var p := if word == "" then pending else f.marks(word);
      ScanIsTokenwise(f, rest[1..], "", p);
      MapGap(f, rest[0], tail, p);
      if word == "" {
        assert Tokens(rest, word) == [Gap(rest[0])] + tail;
      } else {
        assert Tokens(rest, word) == [Word(word)] + ([Gap(rest[0])] + tail);
        MapWord(f, word, [Gap(rest[0])] + tail, pending);
      }
    } else {
      ScanIsTokenwise(f, rest[1..], word + [rest[0]], pending);
    }
  }

  /** The rule turns words into words, so the output cuts into as many tokens. */
  ghost predicate KeepsWords(f: Pass) {
    forall w, p :: IsWord(w) ==> IsWord(f.one(w, p))
  }

  /** A second pass with the same or a lost flag changes nothing, and no rule output sets a new flag. */
  ghost predicate Settles(f: Pass) {
    && (forall w, p, p' :: (p' ==> p) ==> f.one(f.one(w, p), p') == f.one(w, p))
    && (forall w, p :: f.marks(f.one(w, p)) ==> f.marks(w))
  }

  lemma {:induction false} MapTokensWellFormed(f: Pass, ts: seq<Token>, pending: bool)
    requires KeepsWords(f) && WellFormed(ts)
    ensures var us := MapTokens(f, ts, pending);
            WellFormed(us) && |us| == |ts| &&
            forall i | 0 <= i < |ts| ::
              if ts[i].Gap? then us[i] == ts[i]
              else us[i].Word? && (us[i].w == f.one(ts[i].w, true) || us[i].w == f.one(ts[i].w, false))
  {
    if ts != [] {
      assert forall i | 0 <= i < |ts[1..]| :: ts[1..][i] == ts[i + 1];
      MapTokensWellFormed(f, ts[1..], if ts[0].Gap? then pending else f.marks(ts[0].w));
    }
  }

  /** The flag in force at token `i`: set by the nearest word before it. */
  function PendingAt(f: Pass, ts: seq<Token>, pending: bool, i: nat): bool
    requires i <= |ts|
  {
    if i == 0 then pending
    else if ts[i - 1].Gap? then PendingAt(f, ts, pending, i - 1)
    else f.marks(ts[i - 1].w)
  }

  lemma {:induction false} PendingAtTail(f: Pass, ts: seq<Token>, pending: bool, i: nat)
    requires 0 < i <= |ts|
    ensures var p := if ts[0].Gap? then pending else f.marks(ts[0].w);
            PendingAt(f, ts, pending, i) == PendingAt(f, ts[1..], p, i - 1)
  {
    if i > 1 {
      assert ts[1..][i - 2] == ts[i - 1];
      PendingAtTail(f, ts, pending, i - 1);
    }
  }

  /** Each word is rewritten by itself, under the flag its nearest predecessor set. */
  lemma {:induction false} MapTokensAt(f: Pass, ts: seq<Token>, pending: bool, i: nat)
    requires i < |ts|
    ensures |MapTokens(f, ts, pending)| == |ts|
    ensures MapTokens(f, ts, pending)[i] ==
            if ts[i].Gap? then ts[i] else Word(f.one(ts[i].w, PendingAt(f, ts, pending, i)))
    decreases |ts|
  {
    var p := if ts[0].Gap? then pending else f.marks(ts[0].w);
    if i == 0 {
      if |ts| > 1 {
        MapTokensAt(f, ts[1..], p, 0);
      } else {
        assert MapTokens(f, ts[1..], p) == [];
      }
    } else {
      MapTokensAt(f, ts[1..], p, i - 1);
      PendingAtTail(f, ts, pending, i);
      assert ts[1..][i - 1] == ts[i];
    }
  }

  /** The tokens of the scanned line are the line's tokens with the rule mapped along them. */
  lemma ScannedTokens(f: Pass, line: string)
    requires KeepsWords(f)
    ensures Tokens(ScannedLine(f, line), "") == MapTokens(f, Tokens(line, ""), false)
  {
    TokensWellFormed(line, "");
    ScanIsTokenwise(f, line, "", false);
    MapTokensWellFormed(f, Tokens(line, ""), false);
    TokensOfRender(MapTokens(f, Tokens(line, ""), false));
  }

  lemma {:induction false} MapTokensFixed(f: Pass, ts: seq<Token>, pending: bool, pending': bool)
    requires Settles(f)
    requires pending' ==> pending
    ensures var us := MapTokens(f, ts, pending); MapTokens(f, us, pending') == us
  {
    if ts != [] {
      var t, rest := ts[0], ts[1..];
      if t.Gap? {
        MapTokensFixed(f, rest, pending, pending');
        MapTokensCons(f, t, MapTokens(f, rest, pending), pending');
      } else {
        var out, p := f.one(t.w, pending), f.marks(t.w);
        MapTokensFixed(f, rest, p, f.marks(out));
        MapTokensCons(f, Word(out), MapTokens(f, rest, p), pending');
      }
    }
  }

  /** If the rule settles, so does the scanner, although the second pass may see fewer flags. */
  lemma ScanFixed(f: Pass, line: string)
    requires KeepsWords(f) && Settles(f)
    ensures ScannedLine(f, ScannedLine(f, line)) == ScannedLine(f, line)
  {
    ScannedTokens(f, line);
    MapTokensFixed(f, Tokens(line, ""), false, false);
    ScanIsTokenwise(f, line, "", false);
    ScanIsTokenwise(f, ScannedLine(f, line), "", false);
  }

  /** A scanned line holds a whitespace character only where the line did. */
  lemma ScanAddsNoSpace(f: Pass, line: string, c: char)
    requires KeepsWords(f) && IsSpace(c) && c !in line
    ensures c !in ScannedLine(f, line)
  {
    var ts := Tokens(line, "");
    TokensWellFormed(line, "");
    RenderOfTokens(line, "");
    GapsOfRender(ts);
    ScanIsTokenwise(f, line, "", false);
    MapTokensWellFormed(f, ts, false);
    OnlyGapsAreSpace(MapTokens(f, ts, false), c);
  }

  lemma {:induction false} GapsOfRender(ts: seq<Token>)
    ensures forall i | 0 <= i < |ts| && ts[i].Gap? :: ts[i].c in Render(ts)
  {
    if ts != [] {
      GapsOfRender(ts[1..]);
      assert forall i | 1 <= i < |ts| :: ts[i] == ts[1..][i - 1];
    }
  }

  lemma {:induction false} OnlyGapsAreSpace(ts: seq<Token>, c: char)
    requires WellFormed(ts) && IsSpace(c) && forall i | 0 <= i < |ts| && ts[i].Gap? :: ts[i].c != c
    ensures c !in Render(ts)
  {
    if ts != [] {
      assert forall i | 0 <= i < |ts[1..]| :: ts[1..][i] == ts[i + 1];
      OnlyGapsAreSpace(ts[1..], c);
      assert ts[0].Word? ==> forall i | 0 <= i < |ts[0].w| :: ts[0].w[i] != c;
    }
  }
}
