/**
 The framing loop of `stream_verification_live` in crates/relix-cli/src/build.rs: a buffer fed with
 chunks, cut at the leftmost blank line into messages, ended by a `done` message. It reads a subset of
 the format of sections 9.2.5 and 9.2.6 of the WHATWG HTML Living Standard.
 */
module EventFramer {
  import opened Bytes
  import opened Options
  import opened Utf8Lossy

  /** The buffer, the payloads handed to the printer so far, and whether the loop still reads. */
  datatype View = View(buf: string, printed: seq<string>, open: bool)

  const INIT := View("", [], true)

  // ---- One message ----

  /** The index of the first blank line at or after `i`. */
  function BlankFrom(s: string, i: nat): (r: Option<nat>)
    requires i <= |s|
    ensures r.Some? ==> i <= r.value && r.value + 1 < |s| && s[r.value] == '\n' && s[r.value + 1] == '\n'
    ensures r.Some? ==> forall k | i <= k < r.value :: !(s[k] == '\n' && s[k + 1] == '\n')
    ensures r.None? ==> forall k | i <= k < |s| - 1 :: !(s[k] == '\n' && s[k + 1] == '\n')
    decreases |s| - i
  {
    if i + 1 >= |s| then None
    else if s[i] == '\n' && s[i + 1] == '\n' then Some(i)
    else BlankFrom(s, i + 1)
  }

  /** The characters Rust's `trim` removes. */
  predicate IsWhite(c: char) {
    c == ' ' || '\t' <= c <= '\r' || c == '\U{0085}' || c == '\U{00A0}' || c == '\U{1680}' ||
    '\U{2000}' <= c <= '\U{200A}' || c == '\U{2028}' || c == '\U{2029}' ||
    c == '\U{202F}' || c == '\U{205F}' || c == '\U{3000}'
  }

  function TrimStart(s: string): string {
    if s != "" && IsWhite(s[0]) then TrimStart(s[1..]) else s
  }

  function TrimEnd(s: string): string {
    if s != "" && IsWhite(s[|s| - 1]) then TrimEnd(s[..|s| - 1]) else s
  }

  /** Lines without their "\n" or "\r\n"; a final empty line is not one. */
  function LinesOf(msg: string, line: string): seq<string> {
    if msg == "" then (if line == "" then [] else [line])
    else if msg[0] == '\n' then
      [if line != "" && line[|line| - 1] == '\r' then line[..|line| - 1] else line] + LinesOf(msg[1..], "")
    else LinesOf(msg[1..], line + [msg[0]])
  }

  /** The event name and the data of a message; of a repeated field the last one counts. */
  datatype Fields = Fields(name: Option<string>, data: Option<string>)

  function WithLine(f: Fields, line: string): Fields {
    if "event:" <= line then f.(name := Some(TrimEnd(TrimStart(line[6..]))))
    else if "data:" <= line then f.(data := Some(TrimEnd(TrimStart(line[5..]))))
    else f
  }

  function FieldsOf(lines: seq<string>): Fields {
    if lines == [] then Fields(None, None)
    else WithLine(FieldsOf(lines[..|lines| - 1]), lines[|lines| - 1])
  }

  /** The field loop. */
  method ParseMessage(msg: string) returns (f: Fields)
    ensures f == FieldsOf(LinesOf(msg, ""))
  {
    var lines := LinesOf(msg, "");
    f := Fields(None, None);
    for i := 0 to |lines|
      invariant f == FieldsOf(lines[..i])
    {
      assert lines[..i + 1][..i] == lines[..i];
      if "event:" <= lines[i] {
        f := f.(name := Some(TrimEnd(TrimStart(lines[i][6..]))));
      } else if "data:" <= lines[i] {
        f := f.(data := Some(TrimEnd(TrimStart(lines[i][5..]))));
      }
    }
    assert lines[..|lines|] == lines;
  }

  /** What a complete message does: print an entry, end the loop, or nothing. */
  function Dispatch(v: View, f: Fields): View {
    if f.name.Some? && f.data.Some? then
      if f.name.value == "entry" then v.(printed := v.printed + [f.data.value])
      else if f.name.value == "done" then v.(open := false)
      else v
    else v
  }

  /** One turn of the inner loop: cut the message before the leftmost blank line and act on it. */
  function CutAt(v: View, idx: nat): (v': View)
    requires idx + 2 <= |v.buf|
    ensures v'.buf == v.buf[idx + 2..]
  {
    Dispatch(v.(buf := v.buf[idx + 2..]), FieldsOf(LinesOf(v.buf[..idx], "")))
  }

  /** The inner loop, until no complete message is left or a `done` ended it. */
  function Drain(v: View): View
    decreases |v.buf|
  {
    if !v.open || BlankFrom(v.buf, 0).None? then v
    else Drain(CutAt(v, BlankFrom(v.buf, 0).value))
  }

  function More(v: View, text: string): View {
    v.(buf := v.buf + text)
  }

  // ---- The loop as an object ----

  class Framer {
    var buf: string
    var printed: seq<string>
    var open: bool

    function Now(): View
      reads this
    {
      View(buf, printed, open)
    }

    constructor ()
      ensures Now() == INIT
    {
      buf, printed, open := "", [], true;
    }

    /** Handling one chunk: decode it, append it, and cut off every complete message. */
    method Feed(bytes: seq<byte>)
      requires open
      modifies this
      ensures Now() == Drain(More(old(Now()), Lossy(bytes)))
    {
      buf := buf + Lossy(bytes);
      ghost var start := Now();
      var idx := BlankFrom(buf, 0);
      while open && idx.Some?
        invariant idx == BlankFrom(buf, 0)
        invariant Drain(Now()) == Drain(start)
        decreases |buf|
      {
        var msg := buf[..idx.value];
        buf := buf[idx.value + 2..];
        var f := ParseMessage(msg);
        if f.name.Some? && f.data.Some? {
          if f.name.value == "entry" {
            printed := printed + [f.data.value];
          } else if f.name.value == "done" {
            open := false;
          }
        }
        idx := BlankFrom(buf, 0);
      }
    }

    /** The outer loop over a finite stream: it stops reading at `done`. */
    method Run(chunks: seq<seq<byte>>) returns (unread: seq<seq<byte>>)
      requires open
      modifies this
      ensures (Now(), DecodedChunks(unread)) == Stream(old(Now()), DecodedChunks(chunks))
    {
      unread := chunks;
      ghost var start := Now();
      while open && unread != []
        invariant Stream(Now(), DecodedChunks(unread)) == Stream(start, DecodedChunks(chunks))
        decreases |unread|
      {
        assert DecodedChunks(unread)[1..] == DecodedChunks(unread[1..]);
        Feed(unread[0]);
        unread := unread[1..];
      }
    }
  }

  /** The outer loop on decoded chunks: the view it ends in and the chunks it did not read. */
  function Stream(v: View, texts: seq<string>): (View, seq<string>)
    decreases |texts|
  {
    if !v.open || texts == [] then (v, texts)
    else Stream(Drain(More(v, texts[0])), texts[1..])
  }

  // ---- Chunking does not matter ----

  lemma BlankKept(s: string, x: string)
    requires BlankFrom(s, 0).Some?
    ensures BlankFrom(s + x, 0) == BlankFrom(s, 0)
  {
    var i, j := BlankFrom(s, 0), BlankFrom(s + x, 0);
    var w := s + x;
    assert w[i.value] == '\n' && w[i.value + 1] == '\n';
    assert forall k | 0 <= k < |s| :: w[k] == s[k];
    assert j.Some?;
  }

  /** Text that arrives later only waits behind what is already there. */
  lemma {:induction false} DrainThenMore(v: View, x: string)
    ensures Drain(More(v, x)) == Drain(More(Drain(v), x))
    decreases |v.buf|
  {
    if v.open && BlankFrom(v.buf, 0).Some? {
      BlankKept(v.buf, x);
      var idx := BlankFrom(v.buf, 0).value;
      var w := v.buf + x;
      assert w[idx + 2..] == v.buf[idx + 2..] + x;
      assert w[..idx] == v.buf[..idx];
      assert CutAt(More(v, x), idx) == More(CutAt(v, idx), x);
      DrainThenMore(CutAt(v, idx), x);
    }
  }

  lemma MoreTwice(v: View, x: string, y: string)
    ensures More(v, x + y) == More(More(v, x), y)
  {
    assert v.buf + (x + y) == (v.buf + x) + y;
  }

  /**
   Reading the chunks one by one is reading them at once: same entries, same end, and what is left in
   the buffer together with what was not read is the same text.
   */
  lemma {:induction false} StreamIsOneRead(v: View, texts: seq<string>)
    requires Drain(v) == v
    ensures var (end, unread) := Stream(v, texts);
            Drain(More(v, ConcatText(texts))) == More(end, ConcatText(unread)) &&
            (unread != [] ==> !end.open)
    decreases |texts|
  {
    if !v.open {
    } else if texts == [] {
      assert v.buf + "" == v.buf;
    } else {
      var t, rest := texts[0], ConcatText(texts[1..]);
      var v' := Drain(More(v, t));
      DrainIdempotent(More(v, t));
      StreamIsOneRead(v', texts[1..]);
      MoreTwice(v, t, rest);
      DrainThenMore(More(v, t), rest);
    }
  }

  /** The reader takes chunks while it is open, and none after the one that ends with a done. */
  lemma {:induction false} StopsReading(v: View, texts: seq<string>) returns (n: nat)
    requires Drain(v) == v
    ensures n <= |texts| && Stream(v, texts).1 == texts[n..]
    ensures forall k | 0 <= k < n :: Drain(More(v, ConcatText(texts[..k]))).open
    ensures n < |texts| ==> !Drain(More(v, ConcatText(texts[..n]))).open
    decreases |texts|
  {
    assert More(v, "") == v && (texts != [] ==> ConcatText(texts[..0]) == "");
    if !v.open || texts == [] {
      n := 0;
    } else {
      var t, rest := texts[0], texts[1..];
      var v' := Drain(More(v, t));
      DrainIdempotent(More(v, t));
      var m := StopsReading(v', rest);
      n := m + 1;
      assert texts[n..] == rest[m..];
      forall k | 0 < k <= |texts|
        ensures Drain(More(v, ConcatText(texts[..k]))) == Drain(More(v', ConcatText(rest[..k - 1])))
      {
        assert texts[..k][0] == t && texts[..k][1..] == rest[..k - 1];
        MoreTwice(v, t, ConcatText(rest[..k - 1]));
        DrainThenMore(More(v, t), ConcatText(rest[..k - 1]));
      }
    }
  }

  lemma {:induction false} DrainIdempotent(v: View)
    ensures Drain(Drain(v)) == Drain(v)
    decreases |v.buf|
  {
    if v.open && BlankFrom(v.buf, 0).Some? {
      DrainIdempotent(CutAt(v, BlankFrom(v.buf, 0).value));
    }
  }

  /**
   For every way of cutting a byte stream into chunks between characters, the reader prints the entries
   and stops at the `done` of the whole stream, and keeps the same buffer while it has not stopped.
   */
  lemma ChunkingIndependent(chunks: seq<seq<byte>>)
    requires CleanChunks(chunks)
    ensures var whole := Drain(More(INIT, Lossy(Concat(chunks))));
            var (end, unread) := Stream(INIT, DecodedChunks(chunks));
            end.printed == whole.printed && end.open == whole.open &&
            end.buf + ConcatText(unread) == whole.buf &&
            (end.open ==> end.buf == whole.buf)
  {
    ChunksExactly(chunks);
    StreamIsOneRead(INIT, DecodedChunks(chunks));
    var (end, unread) := Stream(INIT, DecodedChunks(chunks));
    if end.open {
      assert end.buf + "" == end.buf;
    }
  }

  /** The reader never prints less when it reads on: ending the stream early loses only a suffix. */
  lemma ReadingOnExtends(v: View, x: string)
    ensures Drain(v).printed <= Drain(More(v, x)).printed
  {
    DrainThenMore(v, x);
    DrainPrintsMore(More(Drain(v), x));
  }

  lemma {:induction false} DrainPrintsMore(v: View)
    ensures v.printed <= Drain(v).printed
    decreases |v.buf|
  {
    if v.open && BlankFrom(v.buf, 0).Some? {
      DrainPrintsMore(CutAt(v, BlankFrom(v.buf, 0).value));
    }
  }

  /** Nothing after a `done` is acted on. */
  lemma AfterDone(v: View, x: string)
    requires !Drain(v).open
    ensures Drain(More(v, x)).printed == Drain(v).printed && !Drain(More(v, x)).open
  {
    DrainThenMore(v, x);
  }

  // ---- A cut inside a character ----

  /** Two chunks that cut a two-byte character apart do not read as the stream they make up. */
  lemma CutInsideCharacterShows(lead: byte, last: byte)
    requires 0xC2 <= lead <= 0xDF && 0x80 <= last <= 0xBF
    ensures !CleanChunks([[lead], [last]])
    ensures ConcatText(DecodedChunks([[lead], [last]])) != Lossy(Concat([[lead], [last]]))
  {
    var chunks := [[lead], [last]];
    assert chunks[1..] == [[last]] && Concat([[last]]) == [last];
    assert EndOf(Start, [lead]) == Inside(lead - 0xC0, 0x80, 0xBF, 1) by {
      assert EndOf(Step(Start, lead).0, [lead][1..]) == Step(Start, lead).0;
    }
    ChunksExactly(chunks);
  }
}
