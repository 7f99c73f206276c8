/**
 What the reader of crates/relix-cli/src/build.rs makes of a stream of messages, said without its loops: a
 message is a list of non-empty lines, the last `event:` line names it, the last `data:` line is its payload,
 and the reader prints the payloads of the messages named `entry` up to the first one named `done`.
 */
module FramerSpec {
  import opened Bytes
  import opened Options
  import opened Utf8Lossy
  import opened EventFramer

  // ---- The wire ----

  ghost predicate GoodLines(lines: seq<string>) {
    forall i | 0 <= i < |lines| :: lines[i] != "" && '\n' !in lines[i]
  }

  ghost predicate GoodMessages(msgs: seq<seq<string>>) {
    forall i | 0 <= i < |msgs| :: GoodLines(msgs[i])
  }

  function Joined(lines: seq<string>): string {
    if lines == [] then "" else if |lines| == 1 then lines[0] else lines[0] + ['\n'] + Joined(lines[1..])
  }

  /** Every message is followed by a blank line. */
  function Wire(msgs: seq<seq<string>>): string {
    if msgs == [] then "" else Joined(msgs[0]) + (['\n', '\n'] + Wire(msgs[1..]))
  }

  /** Unicode's White_Space property, by its code points. */
  lemma WhiteCodes(c: char)
    ensures var n := c as int;
            IsWhite(c) <==>
              || 9 <= n <= 13 || n == 32 || n == 133 || n == 160 || n == 5760 || 8192 <= n <= 8202
              || n == 8232 || n == 8233 || n == 8239 || n == 8287 || n == 12288
  {
  }

  // ---- What a message says ----

  ghost predicate AllWhite(s: string) {
    forall i | 0 <= i < |s| :: IsWhite(s[i])
  }

  ghost predicate Trimmed(s: string) {
    s != "" ==> !IsWhite(s[0]) && !IsWhite(s[|s| - 1])
  }

  /** The line is the field with that value, between blanks or a carriage return. */
  ghost predicate IsField(line: string, field: string, value: string) {
    Trimmed(value) &&
    exists pre, post :: AllWhite(pre) && AllWhite(post) && line == field + (pre + value + post)
  }

  /** The last line that has something has it right. */
  ghost predicate LastIs(lines: seq<string>, has: string -> bool, right: string -> bool) {
    exists i :: 0 <= i < |lines| && right(lines[i]) && forall k | i < k < |lines| :: !has(lines[k])
  }

  /** The last line with the field has that value. */
  ghost predicate Says(lines: seq<string>, field: string, value: string) {
    LastIs(lines, line => field <= line, line => IsField(line, field, value))
  }

  ghost predicate IsEntry(msg: seq<string>) {
    Says(msg, "event:", "entry") && exists payload :: Says(msg, "data:", payload)
  }

  ghost predicate IsDone(msg: seq<string>) {
    Says(msg, "event:", "done") && exists payload :: Says(msg, "data:", payload)
  }

  /** How messages are told apart, and what payload one has. */
  datatype Meaning = Meaning(done: seq<string> -> bool, entry: seq<string> -> bool, payload: (seq<string>, string) -> bool)

  ghost function Plainly(): Meaning {
    Meaning(msg => IsDone(msg), msg => IsEntry(msg), (msg, payload) => Says(msg, "data:", payload))
  }

  /** What is printed, whether the reader stays open, and what it leaves in the buffer. */
  ghost predicate ReadsBy(
      mean: Meaning, msgs: seq<seq<string>>, rest: string, printed: seq<string>, open: bool, buf: string)
  {
    if msgs == [] then printed == [] && open && buf == rest
    else if mean.done(msgs[0]) then printed == [] && !open && buf == Wire(msgs[1..]) + rest
    else if mean.entry(msgs[0]) then
      printed != [] && mean.payload(msgs[0], printed[0]) && ReadsBy(mean, msgs[1..], rest, printed[1..], open, buf)
    else ReadsBy(mean, msgs[1..], rest, printed, open, buf)
  }

  ghost predicate Reads(msgs: seq<seq<string>>, rest: string, printed: seq<string>, open: bool, buf: string) {
    ReadsBy(Plainly(), msgs, rest, printed, open, buf)
  }

  // ---- Fields ----

  lemma {:induction false} TrimStartCuts(s: string) returns (pre: string)
    ensures s == pre + TrimStart(s) && AllWhite(pre)
    ensures TrimStart(s) != "" ==> !IsWhite(TrimStart(s)[0])
    decreases |s|
  {
    if s != "" && IsWhite(s[0]) {
      var p := TrimStartCuts(s[1..]);
      pre := [s[0]] + p;
      assert s == [s[0]] + s[1..];
    } else {
      pre := "";
    }
  }

  lemma {:induction false} TrimEndCuts(s: string) returns (post: string)
    ensures s == TrimEnd(s) + post && AllWhite(post)
    ensures TrimEnd(s) != "" ==> !IsWhite(TrimEnd(s)[|TrimEnd(s)| - 1])
    decreases |s|
  {
    if s != "" && IsWhite(s[|s| - 1]) {
      var p := TrimEndCuts(s[..|s| - 1]);
      post := p + [s[|s| - 1]];
      assert s == s[..|s| - 1] + [s[|s| - 1]];
    } else {
      post := "";
    }
  }

  /** Trimming both ends. */
  lemma TrimCuts(s: string) returns (pre: string, post: string)
    ensures var t := TrimEnd(TrimStart(s));
            s == pre + t + post && AllWhite(pre) && AllWhite(post) && Trimmed(t)
  {
    pre := TrimStartCuts(s);
    post := TrimEndCuts(TrimStart(s));
    var a, t := TrimStart(s), TrimEnd(TrimStart(s));
    assert t != "" ==> a[0] == t[0];
  }

  /** A text has one trimmed part between blanks. */
  lemma TrimUnique(pre: string, t: string, post: string, pre': string, t': string, post': string)
    requires pre + t + post == pre' + t' + post'
    requires AllWhite(pre) && AllWhite(post) && AllWhite(pre') && AllWhite(post') && Trimmed(t) && Trimmed(t')
    ensures t == t'
  {
    if t != "" {
      StartsLater(pre, t, post, pre', t', post');
      StartsLater(pre', t', post', pre, t, post);
      var s := pre + t + post;
      assert s[|pre|..|pre| + |t|] == t && (pre' + t' + post')[|pre'|..|pre'| + |t'|] == t';
    } else if t' != "" {
      StartsLater(pre', t', post', pre, t, post);
    }
  }

  lemma StartsLater(pre: string, t: string, post: string, pre': string, t': string, post': string)
    requires pre + t + post == pre' + t' + post' && t != "" && Trimmed(t)
    requires AllWhite(pre') && AllWhite(post')
    ensures t' != "" && |pre'| <= |pre| && |pre| + |t| <= |pre'| + |t'|
  {
    var s, s' := pre + t + post, pre' + t' + post';
    assert s[|pre|] == t[0] && s[|pre| + |t| - 1] == t[|t| - 1];
    assert forall i | 0 <= i < |pre'| :: s'[i] == pre'[i];
    assert forall i | |pre'| + |t'| <= i < |s'| :: s'[i] == post'[i - |pre'| - |t'|];
  }

  lemma FieldUnique(line: string, field: string, v: string, v': string)
    requires IsField(line, field, v) && IsField(line, field, v')
    ensures v == v'
  {
    var pre, post :| AllWhite(pre) && AllWhite(post) && line == field + (pre + v + post);
    var pre', post' :| AllWhite(pre') && AllWhite(post') && line == field + (pre' + v' + post');
    assert line[|field|..] == pre + v + post == pre' + v' + post';
    TrimUnique(pre, v, post, pre', v', post');
  }

  /** The line as the reader sees it: a carriage return at its end may be gone. */
  ghost predicate Chomped(line: string, seen: string) {
    seen == line || seen + ['\r'] == line
  }

  lemma ChompedField(line: string, seen: string, field: string)
    requires Chomped(line, seen) && '\r' !in field
    ensures field <= seen <==> field <= line
  {
    if field <= line && seen != line {
      assert forall i | 0 <= i < |field| :: line[i] == field[i] && line[i] != '\r';
      assert line[|line| - 1] == '\r';
    }
  }

  lemma FieldValue(line: string, seen: string, field: string)
    requires Chomped(line, seen) && field <= seen
    ensures IsField(line, field, TrimEnd(TrimStart(seen[|field|..])))
  {
    var s := seen[|field|..];
    var pre, post := TrimCuts(s);
    var v := TrimEnd(TrimStart(s));
    if seen == line {
      assert line == field + (pre + v + post);
    } else {
      var post' := post + ['\r'];
      assert AllWhite(post') && pre + v + post' == s + ['\r'];
      assert line == field + (pre + v + post');
    }
  }

  /** A later line that has it decides; one that does not changes nothing. */
  lemma LastNext(lines: seq<string>, line: string, has: string -> bool, right: string -> bool)
    requires forall l :: right(l) ==> has(l)
    ensures LastIs(lines + [line], has, right) <==> if has(line) then right(line) else LastIs(lines, has, right)
  {
    var all, n := lines + [line], |lines|;
    assert all[n] == line && forall k | 0 <= k < n :: all[k] == lines[k];
    if has(line) && right(line) {
      assert right(all[n]);
    } else if !has(line) {
      if i :| 0 <= i < n && right(lines[i]) && forall k | i < k < n :: !has(lines[k]) {
        assert right(all[i]);
      }
      if i :| 0 <= i < |all| && right(all[i]) && forall k | i < k < |all| :: !has(all[k]) {
        assert i < n && right(lines[i]);
      }
    }
  }

  lemma SaysNext(lines: seq<string>, line: string, field: string, v: string)
    ensures Says(lines + [line], field, v) <==> if field <= line then IsField(line, field, v) else Says(lines, field, v)
  {
    LastNext(lines, line, l => field <= l, l => IsField(l, field, v));
  }

  /** A message says at most one value for a field. */
  lemma SaysUnique(lines: seq<string>, field: string, v: string, v': string)
    requires Says(lines, field, v) && Says(lines, field, v')
    ensures v == v'
  {
    var i :| 0 <= i < |lines| && IsField(lines[i], field, v) && forall k | i < k < |lines| :: !(field <= lines[k]);
    var j :| 0 <= j < |lines| && IsField(lines[j], field, v') && forall k | j < k < |lines| :: !(field <= lines[k]);
    assert field <= lines[i] && field <= lines[j];
    assert i == j;
    FieldUnique(lines[i], field, v, v');
  }

  ghost predicate AllChomped(lines: seq<string>, seen: seq<string>) {
    |lines| == |seen| && forall i | 0 <= i < |lines| :: Chomped(lines[i], seen[i])
  }

  /** What the field loop finds is what the message says. */
  lemma {:induction false} FieldsMean(lines: seq<string>, seen: seq<string>, v: string)
    requires AllChomped(lines, seen)
    ensures FieldsOf(seen).name == Some(v) <==> Says(lines, "event:", v)
    ensures FieldsOf(seen).data == Some(v) <==> Says(lines, "data:", v)
  {
    if lines != [] {
      var n := |lines| - 1;
      var front, line, sawn := lines[..n], lines[n], seen[n];
      assert lines == front + [line] && AllChomped(front, seen[..n]) && Chomped(line, sawn);
      FieldsMean(front, seen[..n], v);
      FieldNext(FieldsOf(seen[..n]), front, line, sawn, v);
    }
  }

  lemma FieldNext(f: Fields, lines: seq<string>, line: string, seen: string, v: string)
    requires Chomped(line, seen)
    requires f.name == Some(v) <==> Says(lines, "event:", v)
    requires f.data == Some(v) <==> Says(lines, "data:", v)
    ensures WithLine(f, seen).name == Some(v) <==> Says(lines + [line], "event:", v)
    ensures WithLine(f, seen).data == Some(v) <==> Says(lines + [line], "data:", v)
  {
    SaysNext(lines, line, "event:", v);
    SaysNext(lines, line, "data:", v);
    ChompedField(line, seen, "event:");
    ChompedField(line, seen, "data:");
    NotBoth(seen);
    if "event:" <= seen {
      ValueIs(line, seen, "event:", v);
    } else if "data:" <= seen {
      ValueIs(line, seen, "data:", v);
    }
  }

  lemma NotBoth(s: string)
    ensures !("event:" <= s && "data:" <= s)
  {
    assert "event:"[0] != "data:"[0];
  }

  lemma ValueIs(line: string, seen: string, field: string, v: string)
    requires Chomped(line, seen) && field <= seen
    ensures TrimEnd(TrimStart(seen[|field|..])) == v <==> IsField(line, field, v)
  {
    FieldValue(line, seen, field);
    if IsField(line, field, v) {
      FieldUnique(line, field, v, TrimEnd(TrimStart(seen[|field|..])));
    }
  }

  // ---- Lines ----

  lemma {:induction false} ReadLine(line: string, rest: string, acc: string)
    requires '\n' !in line
    ensures LinesOf(line + rest, acc) == LinesOf(rest, acc + line)
    decreases |line|
  {
    if line == "" {
      assert line + rest == rest && acc + line == acc;
    } else {
      assert (line + rest)[1..] == line[1..] + rest;
      ReadLine(line[1..], rest, acc + [line[0]]);
      assert (acc + [line[0]]) + line[1..] == acc + line;
    }
  }

  /** The lines of a message, each perhaps without its carriage return. */
  lemma {:induction false} LinesOfJoined(lines: seq<string>)
    requires GoodLines(lines)
    ensures AllChomped(lines, LinesOf(Joined(lines), ""))
  {
    if |lines| == 1 {
      ReadLine(lines[0], "", "");
      assert lines[0] + "" == lines[0] && "" + lines[0] == lines[0];
    } else if |lines| > 1 {
      var line, tail := lines[0], Joined(lines[1..]);
      var seen := LineBefore(line, tail);
      LinesOfJoined(lines[1..]);
      assert lines == [line] + lines[1..];
    }
  }

  lemma LineBefore(line: string, rest: string) returns (seen: string)
    requires line != "" && '\n' !in line
    ensures Chomped(line, seen) && LinesOf(line + ['\n'] + rest, "") == [seen] + LinesOf(rest, "")
  {
    seen := if line[|line| - 1] == '\r' then line[..|line| - 1] else line;
    assert line[|line| - 1] == '\r' ==> seen + ['\r'] == line;
    assert line + ['\n'] + rest == line + (['\n'] + rest) && "" + line == line;
    ReadLine(line, ['\n'] + rest, "");
    assert (['\n'] + rest)[1..] == rest;
  }

  // ---- Messages ----

  /** No blank line inside a message, nor across its end. */
  lemma {:induction false} NoBlankInside(lines: seq<string>)
    requires GoodLines(lines)
    ensures var m := Joined(lines);
            && (m != "" ==> m[0] != '\n' && m[|m| - 1] != '\n')
            && forall k | 0 <= k < |m| - 1 :: !(m[k] == '\n' && m[k + 1] == '\n')
  {
    if |lines| == 1 {
      assert forall k | 0 <= k < |lines[0]| :: lines[0][k] != '\n';
    } else if |lines| > 1 {
      var line, tail := lines[0], Joined(lines[1..]);
      NoBlankInside(lines[1..]);
      var m := Joined(lines);
      assert lines[1] != "" && tail != "";
      assert m == line + ['\n'] + tail;
      assert forall k | 0 <= k < |line| :: m[k] == line[k] && line[k] != '\n';
      assert forall k | |line| < k < |m| :: m[k] == tail[k - |line| - 1];
    }
  }

  /** The first blank line of the buffer is the one behind its first message. */
  lemma FirstBlank(lines: seq<string>, rest: string)
    requires GoodLines(lines)
    ensures var buf := Joined(lines) + (['\n', '\n'] + rest);
            && BlankFrom(buf, 0) == Some(|Joined(lines)|)
            && buf[..|Joined(lines)|] == Joined(lines) && buf[|Joined(lines)| + 2..] == rest
  {
    var m := Joined(lines);
    var buf := m + (['\n', '\n'] + rest);
    NoBlankInside(lines);
    assert buf[|m|] == '\n' && buf[|m| + 1] == '\n';
    assert forall k | 0 <= k < |m| :: buf[k] == m[k];
    var r := BlankFrom(buf, 0);
    assert r.Some? && r.value <= |m|;
  }

  /** A done stops the reader, an entry is printed, anything else changes nothing. */
  ghost predicate Effect(mean: Meaning, v: View, msg: seq<string>, v': View) {
    if mean.done(msg) then v' == v.(open := false)
    else if mean.entry(msg) then
      exists payload :: mean.payload(msg, payload) && v' == v.(printed := v.printed + [payload])
    else v' == v
  }

  /** What the reader does with the message once it is cut off the buffer. */
  function Handled(v: View, msg: seq<string>): View {
    Dispatch(v, FieldsOf(LinesOf(Joined(msg), "")))
  }

  /** What the message does to the reader. */
  lemma Dispatched(v: View, lines: seq<string>)
    requires GoodLines(lines)
    ensures Effect(Plainly(), v, lines, Handled(v, lines))
  {
    var seen := LinesOf(Joined(lines), "");
    var f := FieldsOf(seen);
    LinesOfJoined(lines);
    forall x ensures (f.name == Some(x) <==> Says(lines, "event:", x)) && (f.data == Some(x) <==> Says(lines, "data:", x)) {
      FieldsMean(lines, seen, x);
    }
    DispatchBy(v, f, x => Says(lines, "event:", x), x => Says(lines, "data:", x));
  }

  lemma DispatchBy(v: View, f: Fields, name: string -> bool, data: string -> bool)
    requires forall x :: f.name == Some(x) <==> name(x)
    requires forall x :: f.data == Some(x) <==> data(x)
    ensures var v' := Dispatch(v, f);
            if name("done") && exists payload :: data(payload) then v' == v.(open := false)
            else if name("entry") && exists payload :: data(payload) then
              exists payload :: data(payload) && v' == v.(printed := v.printed + [payload])
            else v' == v
  {
    if f.name.Some? && f.data.Some? {
      assert name(f.name.value) && data(f.data.value);
    }
  }

  // ---- Streams ----

  /** One turn of the reader's inner loop on a buffer that starts with a message. */
  lemma DrainOne(v: View, lines: seq<string>, rest: string)
    requires GoodLines(lines) && v.open && v.buf == Joined(lines) + (['\n', '\n'] + rest)
    ensures Drain(v) == Drain(Handled(v.(buf := rest), lines))
  {
    FirstBlank(lines, rest);
  }

  ghost predicate NoBlank(s: string) {
    forall k | 0 <= k < |s| - 1 :: !(s[k] == '\n' && s[k + 1] == '\n')
  }

  /** Reading on with something printed before. */
  ghost predicate ReadsAs(mean: Meaning, v: View, v': View, msgs: seq<seq<string>>, rest: string) {
    v.printed <= v'.printed && ReadsBy(mean, msgs, rest, v'.printed[|v.printed|..], v'.open, v'.buf)
  }

  /** Whatever the messages are, the reader prints, stops and keeps what they say. */
  lemma {:induction false} DrainReads(v: View, msgs: seq<seq<string>>, rest: string)
    requires GoodMessages(msgs) && NoBlank(rest) && v.open && v.buf == Wire(msgs) + rest
    ensures ReadsAs(Plainly(), v, Drain(v), msgs, rest)
    decreases |msgs|
  {
    if msgs == [] {
      assert v.buf == rest && Drain(v) == v;
    } else {
      var msg, after := msgs[0], Wire(msgs[1..]) + rest;
      DrainOne(v, msg, after);
      var v0 := v.(buf := after);
      var v1 := Handled(v0, msg);
      Dispatched(v0, msg);
      if v1.open {
        DrainReads(v1, msgs[1..], rest);
        ReadsNext(Plainly(), v0, v1, Drain(v1), msgs, rest);
      }
    }
  }

  lemma ReadsNext(mean: Meaning, v: View, v1: View, v': View, msgs: seq<seq<string>>, rest: string)
    requires msgs != [] && !mean.done(msgs[0]) && ReadsAs(mean, v1, v', msgs[1..], rest) && Effect(mean, v, msgs[0], v1)
    ensures ReadsAs(mean, v, v', msgs, rest)
  {
    if mean.entry(msgs[0]) {
      var payload :| mean.payload(msgs[0], payload) && v1 == v.(printed := v.printed + [payload]);
      var n := |v.printed|;
      assert v'.printed[n] == v1.printed[n] == payload;
      assert v'.printed[n..][1..] == v'.printed[n + 1..];
      assert v.printed <= v1.printed;
    }
  }

  /** What a stream of messages and an unfinished rest make the reader do. */
  lemma StreamReads(msgs: seq<seq<string>>, rest: string)
    requires GoodMessages(msgs) && NoBlank(rest)
    ensures var v := Drain(More(INIT, Wire(msgs) + rest)); Reads(msgs, rest, v.printed, v.open, v.buf)
  {
    var text := Wire(msgs) + rest;
    var v := More(INIT, text);
    assert v.buf == text;
    DrainReads(v, msgs, rest);
    var v' := Drain(v);
    assert v'.printed[0..] == v'.printed;
  }

  /** The same for the bytes of the stream in any chunks that cut no character. */
  lemma ChunkedStreamReads(chunks: seq<seq<byte>>, msgs: seq<seq<string>>, rest: string)
    requires CleanChunks(chunks) && Lossy(Concat(chunks)) == Wire(msgs) + rest
    requires GoodMessages(msgs) && NoBlank(rest)
    ensures var (end, unread) := Stream(INIT, DecodedChunks(chunks));
            Reads(msgs, rest, end.printed, end.open, end.buf + ConcatText(unread))
  {
    ChunkingIndependent(chunks);
    StreamReads(msgs, rest);
  }

  // ---- Messages as the server writes them ----

  datatype Kind = Entry | Done | Other(name: string)

  datatype Message = Message(kind: Kind, payload: string)

  function NameOf(kind: Kind): string {
    match kind case Entry => "entry" case Done => "done" case Other(name) => name
  }

  function Written(m: Message): seq<string> {
    ["event: " + NameOf(m.kind), "data: " + m.payload]
  }

  function AllWritten(ms: seq<Message>): (msgs: seq<seq<string>>)
    ensures |msgs| == |ms|
  {
    seq(|ms|, i requires 0 <= i < |ms| => Written(ms[i]))
  }

  /** The payloads of the entries before the first done. */
  function EntriesOf(ms: seq<Message>): seq<string> {
    if ms == [] || ms[0].kind == Done then []
    else (if ms[0].kind == Entry then [ms[0].payload] else []) + EntriesOf(ms[1..])
  }

  /** How many messages come before the first done. */
  function DoneAt(ms: seq<Message>): (n: nat)
    ensures n <= |ms| && (forall i | 0 <= i < n :: ms[i].kind != Done) && (n < |ms| ==> ms[n].kind == Done)
  {
    if ms == [] || ms[0].kind == Done then 0 else 1 + DoneAt(ms[1..])
  }

  /** Name and payload are trimmed and on one line, and the name of another message is neither of the two. */
  ghost predicate GoodMessage(m: Message) {
    && Trimmed(NameOf(m.kind)) && '\n' !in NameOf(m.kind) && Trimmed(m.payload) && '\n' !in m.payload
    && (m.kind.Other? ==> m.kind.name != "entry" && m.kind.name != "done")
  }

  lemma WrittenIsField(field: string, value: string, v: string)
    requires Trimmed(value)
    ensures IsField(field + ([' '] + value), field, v) <==> v == value
  {
    var line := field + ([' '] + value);
    var pre, post := [' '], "";
    assert AllWhite(pre) && AllWhite(post) && line == field + (pre + value + post);
    assert IsField(line, field, value);
    if IsField(line, field, v) {
      FieldUnique(line, field, v, value);
    }
  }

  lemma TwoFieldsSay(name: string, payload: string, v: string)
    requires Trimmed(name) && Trimmed(payload)
    ensures Says(["event: " + name, "data: " + payload], "event:", v) <==> v == name
    ensures Says(["event: " + name, "data: " + payload], "data:", v) <==> v == payload
  {
    var first, second := "event: " + name, "data: " + payload;
    assert first == "event:" + ([' '] + name) && second == "data:" + ([' '] + payload);
    WrittenIsField("event:", name, v);
    WrittenIsField("data:", payload, v);
    assert [first, second] == [first] + [second] && [first] == [] + [first];
    NotBoth(first);
    NotBoth(second);
    SaysNext([], first, "event:", v);
    SaysNext([first], second, "event:", v);
    SaysNext([first], second, "data:", v);
  }

  /** The message on the wire is told apart by its kind, and has the payload. */
  ghost predicate ByKind(mean: Meaning, msg: seq<string>, m: Message) {
    && (mean.done(msg) <==> m.kind == Done) && (mean.entry(msg) <==> m.kind == Entry)
    && forall p :: mean.payload(msg, p) <==> p == m.payload
  }

  lemma WrittenIsGood(m: Message)
    requires GoodMessage(m)
    ensures GoodLines(Written(m))
  {
  }

  lemma WrittenMeans(m: Message)
    requires GoodMessage(m)
    ensures ByKind(Plainly(), Written(m), m)
  {
    var name, msg := NameOf(m.kind), Written(m);
    forall v ensures (Says(msg, "event:", v) <==> v == name) && (Says(msg, "data:", v) <==> v == m.payload) {
      TwoFieldsSay(name, m.payload, v);
    }
    NamesApart(m);
    KindsByName(msg, m, v => Says(msg, "event:", v), v => Says(msg, "data:", v));
  }

  lemma KindsByName(msg: seq<string>, m: Message, name: string -> bool, data: string -> bool)
    requires forall v :: name(v) == Says(msg, "event:", v) == (v == NameOf(m.kind))
    requires forall v :: data(v) == Says(msg, "data:", v) == (v == m.payload)
    requires NameOf(m.kind) == "done" <==> m.kind == Done
    requires NameOf(m.kind) == "entry" <==> m.kind == Entry
    ensures ByKind(Plainly(), msg, m)
  {
    assert data(m.payload) && Says(msg, "data:", m.payload);
    assert name("done") == Says(msg, "event:", "done") && name("entry") == Says(msg, "event:", "entry");
  }

  lemma NamesApart(m: Message)
    requires GoodMessage(m)
    ensures NameOf(m.kind) == "done" <==> m.kind == Done
    ensures NameOf(m.kind) == "entry" <==> m.kind == Entry
  {
    assert |"done"| != |"entry"|;
  }

  lemma {:induction false} WrittenReads(
      mean: Meaning, msgs: seq<seq<string>>, ms: seq<Message>, rest: string,
      printed: seq<string>, open: bool, buf: string)
    requires |msgs| == |ms| && forall i | 0 <= i < |ms| :: ByKind(mean, msgs[i], ms[i])
    requires ReadsBy(mean, msgs, rest, printed, open, buf)
    ensures printed == EntriesOf(ms) && (open <==> DoneAt(ms) == |ms|)
    ensures buf == if open then rest else Wire(msgs[DoneAt(ms) + 1..]) + rest
    decreases |ms|
  {
    if ms != [] {
      var m := ms[0];
      assert ByKind(mean, msgs[0], m);
      if m.kind != Done {
        var more := if m.kind == Entry then printed[1..] else printed;
        WrittenReads(mean, msgs[1..], ms[1..], rest, more, open, buf);
        DropMore(msgs, DoneAt(ms[1..]) + 1);
        assert m.kind == Entry ==> printed == [printed[0]] + more;
      }
    }
  }

  lemma DropMore(msgs: seq<seq<string>>, n: nat)
    requires msgs != [] && n <= |msgs|
    ensures n < |msgs| ==> msgs[1..][n..] == msgs[n + 1..]
  {
  }

  /**
   The reader prints exactly the payloads of the entries before the first done, is closed exactly when there is
   one, and leaves what follows it, or the unfinished rest, in the buffer.
   */
  lemma WrittenStreamReads(ms: seq<Message>, rest: string)
    requires (forall i | 0 <= i < |ms| :: GoodMessage(ms[i])) && NoBlank(rest)
    ensures var v := Drain(More(INIT, Wire(AllWritten(ms)) + rest));
            && v.printed == EntriesOf(ms) && (v.open <==> DoneAt(ms) == |ms|)
            && v.buf == if v.open then rest else Wire(AllWritten(ms)[DoneAt(ms) + 1..]) + rest
  {
    var msgs := AllWritten(ms);
    forall i | 0 <= i < |ms| ensures ByKind(Plainly(), msgs[i], ms[i]) && GoodLines(msgs[i]) {
      WrittenMeans(ms[i]);
      WrittenIsGood(ms[i]);
    }
    StreamReads(msgs, rest);
    var v := Drain(More(INIT, Wire(msgs) + rest));
    WrittenReads(Plainly(), msgs, ms, rest, v.printed, v.open, v.buf);
  }
}
