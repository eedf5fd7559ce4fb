/** One trace stream: characters are buffered and put out line by line. */
module SwoStream {
  import opened Text

  /** Characters a stream buffers before a newline has to occur. */
  const MAX_LINE_LENGTH := 1024

  /** What a character makes a stream put out: a line ended by a newline, or a full buffer and the character. */
  datatype Emission = Line(body: string) | Overflow(body: string)

  datatype Progress = Progress(emitted: seq<Emission>, buffer: string)

  function AddChar(buffer: string, c: char): Progress {
    if |buffer| >= MAX_LINE_LENGTH then Progress([Overflow(buffer + [c])], "")
    else if c == '\n' then Progress([Line(buffer)], "")
    else Progress([], buffer + [c])
  }

  function AddChars(buffer: string, s: string): Progress
    decreases |s|
  {
    if s == "" then Progress([], buffer)
    else
      var first := AddChar(buffer, s[0]);
      var rest := AddChars(first.buffer, s[1..]);
      Progress(first.emitted + rest.emitted, rest.buffer)
  }

  /** The characters an emission stands for. */
  function Source(e: Emission): string {
    match e
    case Line(body) => body + "\n"
    case Overflow(body) => body
  }

  function SourceOf(es: seq<Emission>): string {
    if es == [] then "" else Source(es[0]) + SourceOf(es[1..])
  }

  lemma {:induction false} SourceOfConcat(a: seq<Emission>, b: seq<Emission>)
    ensures SourceOf(a + b) == SourceOf(a) + SourceOf(b)
  {
    if a == [] {
      assert a + b == b;
    } else {
      SourceOfConcat(a[1..], b);
      Assoc(Source(a[0]), SourceOf(a[1..]), SourceOf(b));
      assert (a + b)[1..] == a[1..] + b;
    }
  }

  /** Characters are conserved: what was put out and what is buffered is exactly what came in. */
  lemma {:induction false} Conservation(buffer: string, s: string)
    ensures var p := AddChars(buffer, s); SourceOf(p.emitted) + p.buffer == buffer + s
    decreases |s|
  {
    if s == "" {
      assert buffer + s == buffer;
    } else {
      var first, tail := AddChar(buffer, s[0]), s[1..];
      var rest := AddChars(first.buffer, tail);
      Conservation(first.buffer, tail);
      SourceOfConcat(first.emitted, rest.emitted);
      OneCharacter(buffer, s[0]);
      Assoc(SourceOf(first.emitted), SourceOf(rest.emitted), rest.buffer);
      Assoc(SourceOf(first.emitted), first.buffer, tail);
      Assoc(buffer, [s[0]], tail);
      assert s == [s[0]] + tail;
    }
  }

  lemma OneCharacter(buffer: string, c: char)
    ensures var p := AddChar(buffer, c); SourceOf(p.emitted) + p.buffer == buffer + [c]
  {
    var p := AddChar(buffer, c);
    if p.emitted != [] {
      assert SourceOf(p.emitted) == Source(p.emitted[0]);
    }
  }

  ghost predicate IsBuffer(buffer: string) {
    |buffer| <= MAX_LINE_LENGTH && '\n' !in buffer
  }

  /** A line is shorter than the limit and has no newline; an overflow is one character
      over the limit and can have a newline only as that character. */
  ghost predicate IsBounded(e: Emission) {
    match e
    case Line(body) => |body| < MAX_LINE_LENGTH && '\n' !in body
    case Overflow(body) => |body| == MAX_LINE_LENGTH + 1 && '\n' !in body[..MAX_LINE_LENGTH]
  }

  /** The bounds of buffer and lines hold after every input. */
  lemma {:induction false} Bounds(buffer: string, s: string)
    requires IsBuffer(buffer)
    ensures var p := AddChars(buffer, s); IsBuffer(p.buffer) && forall e :: e in p.emitted ==> IsBounded(e)
    decreases |s|
  {
    if s != "" {
      var first := AddChar(buffer, s[0]);
      assert (buffer + [s[0]])[..|buffer|] == buffer;
      Bounds(first.buffer, s[1..]);
    }
  }

  function WithoutNewlines(s: string): string {
    if s == "" then "" else (if s[0] == '\n' then "" else [s[0]]) + WithoutNewlines(s[1..])
  }

  function BodiesOf(es: seq<Emission>): string {
    if es == [] then "" else es[0].body + BodiesOf(es[1..])
  }

  lemma {:induction false} WithoutNewlinesConcat(a: string, b: string)
    ensures WithoutNewlines(a + b) == WithoutNewlines(a) + WithoutNewlines(b)
  {
    if a == "" {
      assert a + b == b;
    } else {
      WithoutNewlinesConcat(a[1..], b);
      Assoc(if a[0] == '\n' then "" else [a[0]], WithoutNewlines(a[1..]), WithoutNewlines(b));
      assert (a + b)[1..] == a[1..] + b;
    }
  }

  lemma {:induction false} BodiesAreSource(es: seq<Emission>)
    ensures WithoutNewlines(BodiesOf(es)) == WithoutNewlines(SourceOf(es))
  {
    if es != [] {
      BodiesAreSource(es[1..]);
      WithoutNewlinesConcat(es[0].body, BodiesOf(es[1..]));
      WithoutNewlinesConcat(Source(es[0]), SourceOf(es[1..]));
      WithoutNewlinesConcat(es[0].body, "\n");
    }
  }

  /** The emitted bodies and the buffer are the input once newlines are removed from both. */
  lemma BodiesAreInput(s: string)
    ensures var p := AddChars("", s); WithoutNewlines(BodiesOf(p.emitted) + p.buffer) == WithoutNewlines(s)
  {
    var p := AddChars("", s);
    Conservation("", s);
    assert "" + s == s;
    BodiesAreSource(p.emitted);
    WithoutNewlinesConcat(BodiesOf(p.emitted), p.buffer);
    WithoutNewlinesConcat(SourceOf(p.emitted), p.buffer);
  }

  /** Adding characters in two steps is adding them in one. */
  lemma {:induction false} AddCharsConcat(buffer: string, s: string, t: string)
    ensures var a := AddChars(buffer, s);
            var b := AddChars(a.buffer, t);
            AddChars(buffer, s + t) == Progress(a.emitted + b.emitted, b.buffer)
    decreases |s|
  {
    if s == "" {
      assert s + t == t;
      assert [] + AddChars(buffer, t).emitted == AddChars(buffer, t).emitted;
    } else {
      var first := AddChar(buffer, s[0]);
      AddCharsConcat(first.buffer, s[1..], t);
      assert (s + t)[1..] == s[1..] + t;
      var a := AddChars(first.buffer, s[1..]);
      var b := AddChars(a.buffer, t);
      Assoc(first.emitted, a.emitted, b.emitted);
    }
  }

  /** The texts that emissions make a stream put out. */
  function Render(id: nat, header: string, e: Emission): seq<string> {
    match e
    case Line(body) => [header + body]
    case Overflow(body) =>
      [ "SWO_PARSER.PY WARNING: stream " + DecimalText(id) + " received " + DecimalText(MAX_LINE_LENGTH)
        + " bytes without receiving a newline. Did you forget one?",
        header + body]
  }

  function RenderAll(id: nat, header: string, es: seq<Emission>): seq<string> {
    if es == [] then [] else Render(id, header, es[0]) + RenderAll(id, header, es[1..])
  }

  lemma {:induction false} RenderConcat(id: nat, header: string, a: seq<Emission>, b: seq<Emission>)
    ensures RenderAll(id, header, a + b) == RenderAll(id, header, a) + RenderAll(id, header, b)
  {
    hide Render;
    if a == [] {
      assert a + b == b;
    } else {
      RenderConcat(id, header, a[1..], b);
      Assoc(Render(id, header, a[0]), RenderAll(id, header, a[1..]), RenderAll(id, header, b));
      assert (a + b)[1..] == a[1..] + b;
    }
  }

  /** A line of up to 1023 characters is put out at its newline, behind the stream's header. */
  lemma LineIsPutOut(id: nat, header: string, line: string)
    requires |line| < 1024 && '\n' !in line
    ensures AddChars("", line + "\n") == Progress([Line(line)], "")
    ensures RenderAll(id, header, AddChars("", line + "\n").emitted) == [header + line]
  {
    hide AddChars;
    Buffered("", line);
    AddCharsConcat("", line, "\n");
    AddOnly(line, '\n');
    OneRendered(id, header, Line(line));
    assert "" + line == line;
    assert [] + [Line(line)] == [Line(line)];
  }

  /** Up to 1024 characters without a newline are kept. */
  lemma {:induction false} Buffered(buffer: string, s: string)
    requires |buffer| + |s| <= 1024 && '\n' !in s
    ensures AddChars(buffer, s) == Progress([], buffer + s)
    decreases |s|
  {
    if s == "" {
      assert buffer + s == buffer;
    } else {
      Buffered(buffer + [s[0]], s[1..]);
      assert buffer + [s[0]] + s[1..] == buffer + s;
    }
  }

  lemma AddOnly(buffer: string, c: char)
    ensures AddChars(buffer, [c]) == Progress(AddChar(buffer, c).emitted, AddChar(buffer, c).buffer)
  {
    assert [c][1..] == "";
    assert AddChar(buffer, c).emitted + [] == AddChar(buffer, c).emitted;
  }

  lemma OneRendered(id: nat, header: string, e: Emission)
    ensures RenderAll(id, header, [e]) == Render(id, header, e)
  {
    assert [e][1..] == [];
    assert Render(id, header, e) + [] == Render(id, header, e);
  }

  /** 1024 characters without a newline and one more, whichever, are put out behind a warning. */
  lemma OverflowIsPutOut(id: nat, header: string, s: string, c: char)
    requires |s| == 1024 && '\n' !in s
    ensures AddChars("", s + [c]) == Progress([Overflow(s + [c])], "")
    ensures var texts := RenderAll(id, header, AddChars("", s + [c]).emitted);
            |texts| == 2 && texts[1] == header + (s + [c])
  {
    hide AddChars;
    Buffered("", s);
    AddCharsConcat("", s, [c]);
    AddOnly(s, c);
    OneRendered(id, header, Overflow(s + [c]));
    assert "" + s == s && [] + [Overflow(s + [c])] == [Overflow(s + [c])];
  }

  class Stream {
    const id: nat
    const header: string
    var buffer: string
    /** The texts put out so far, on the console and to the Tcl server. */
    var output: seq<string>

    constructor (id: nat, header: string)
      ensures this.id == id && this.header == header && buffer == "" && output == []
    {
      this.id, this.header, buffer, output := id, header, "", [];
    }

    method Output(s: string)
      modifies this`output
      ensures output == old(output) + [s]
    {
      output := output + [s];
    }

    method AddCharacter(c: char)
      modifies this`buffer, this`output
      ensures var p := AddChar(old(buffer), c);
              buffer == p.buffer && output == old(output) + RenderAll(id, header, p.emitted)
    {
      if |buffer| >= MAX_LINE_LENGTH {
        Output("SWO_PARSER.PY WARNING: stream " + DecimalText(id) + " received " + DecimalText(MAX_LINE_LENGTH)
               + " bytes without receiving a newline. Did you forget one?");
        Output(header + (buffer + [c]));
        buffer := "";
        return;
      }
      if c == '\n' {
        Output(header + buffer);
        buffer := "";
        return;
      }
      buffer := buffer + [c];
    }

    method AddCharacters(s: string)
      modifies this`buffer, this`output
      ensures var p := AddChars(old(buffer), s);
              buffer == p.buffer && output == old(output) + RenderAll(id, header, p.emitted)
    {
      hide AddChar, AddChars, RenderAll;
      var i := 0;
      AddNone(buffer, id, header);
      assert s[..0] == "" && output + [] == output;
      while i < |s|
        invariant i <= |s|
        invariant buffer == AddChars(old(buffer), s[..i]).buffer
        invariant output == old(output) + RenderAll(id, header, AddChars(old(buffer), s[..i]).emitted)
      {
        AddOne(old(buffer), s, i, id, header);
        Assoc(old(output), RenderAll(id, header, AddChars(old(buffer), s[..i]).emitted),
              RenderAll(id, header, AddChar(buffer, s[i]).emitted));
        AddCharacter(s[i]);
        i := i + 1;
      }
      assert s[..i] == s;
    }
  }

  /** Text fed in two steps is put out as if fed at once. */
  lemma FeedTwice(id: nat, header: string, buffer: string, s: string, t: string)
    ensures var a := AddChars(buffer, s);
            var b := AddChars(a.buffer, t);
            var p := AddChars(buffer, s + t);
            && p.buffer == b.buffer
            && RenderAll(id, header, p.emitted) == RenderAll(id, header, a.emitted) + RenderAll(id, header, b.emitted)
  {
    var a := AddChars(buffer, s);
    AddCharsConcat(buffer, s, t);
    RenderConcat(id, header, a.emitted, AddChars(a.buffer, t).emitted);
  }

  lemma AddNone(buffer: string, id: nat, header: string)
    ensures AddChars(buffer, "").buffer == buffer && RenderAll(id, header, AddChars(buffer, "").emitted) == []
  {
  }

  lemma AddOne(buffer: string, s: string, i: nat, id: nat, header: string)
    requires i < |s|
    ensures var a := AddChars(buffer, s[..i]);
            var b := AddChar(a.buffer, s[i]);
            && AddChars(buffer, s[..i + 1]).buffer == b.buffer
            && RenderAll(id, header, AddChars(buffer, s[..i + 1]).emitted)
               == RenderAll(id, header, a.emitted) + RenderAll(id, header, b.emitted)
  {
    hide AddChar, Render, RenderAll;
    var a := AddChars(buffer, s[..i]);
    var b := AddChar(a.buffer, s[i]);
    FeedTwice(id, header, buffer, s[..i], [s[i]]);
    assert s[..i] + [s[i]] == s[..i + 1];
    assert AddChars(a.buffer, [s[i]]) == Progress(b.emitted + [], b.buffer);
    assert b.emitted + [] == b.emitted;
  }
}
