/** The stream manager and the connection that feeds it. */
module SwoParser {
  import opened Machine
  import opened Text
  import opened SwoStream
  import opened Itm
  import opened Tcl

  /** A stream that held buffer and output and was then fed text. */
  ghost predicate FedBy(s: Stream, buffer: string, output: seq<string>, text: string)
    reads s
  {
    var p := AddChars(buffer, text);
    s.buffer == p.buffer && s.output == output + RenderAll(s.id, s.header, p.emitted)
  }

  class StreamManager {
    var streams: map<nat, Stream>
    var itmBuffer: seq<Byte>
    /** Every call made so far, in order. */
    ghost var calls: seq<Call>

    /** The dictionary is keyed by the streams' own ids. */
    ghost predicate Valid()
      reads this`streams, streams.Values
    {
      forall a :: a in streams ==> streams[a].id == a
    }

    constructor ()
      ensures Valid() && streams == map[] && itmBuffer == [] && calls == []
    {
      streams, itmBuffer, calls := map[], [], [];
    }

    method AddStream(s: Stream)
      requires Valid()
      modifies this`streams
      ensures Valid() && streams == old(streams)[s.id := s]
    {
      streams := streams[s.id := s];
    }

    /** Every stream has been fed the texts of these calls since it held these buffers and outputs. */
    ghost predicate AllFed(buffers: map<nat, string>, outputs: map<nat, seq<string>>, done: seq<Call>)
      requires buffers.Keys == outputs.Keys == streams.Keys
      reads this`streams, streams.Values
    {
      forall a :: a in streams ==> FedBy(streams[a], buffers[a], outputs[a], TextFor(a, done))
    }

    ghost function Buffers(): (m: map<nat, string>)
      reads this`streams, streams.Values
      ensures m.Keys == streams.Keys
    {
      map a | a in streams :: streams[a].buffer
    }

    ghost function Outputs(): (m: map<nat, seq<string>>)
      reads this`streams, streams.Values
      ensures m.Keys == streams.Keys
    {
      map a | a in streams :: streams[a].output
    }

    /** Hands a text to its stream; no other stream changes. */
    method Deliver(id: nat, s: string, ghost buffers: map<nat, string>, ghost outputs: map<nat, seq<string>>,
                   ghost done: seq<Call>)
      requires Valid() && id in streams && buffers.Keys == outputs.Keys == streams.Keys
      requires AllFed(buffers, outputs, done)
      modifies streams[id]
      ensures AllFed(buffers, outputs, done + [Call(id, s)])
    {
      hide AddChars, RenderAll, TextFor;
      streams[id].AddCharacters(s);
      forall a | a in streams
        ensures FedBy(streams[a], buffers[a], outputs[a], TextFor(a, done + [Call(id, s)]))
      {
        FeedCall(a, streams[a].header, buffers[a], outputs[a], done, Call(id, s));
        assert a != id ==> streams[a] != streams[id];
      }
    }

    /** Decodes the retained bytes with the new ones and feeds every stream its texts. */
    method ParseItmBytes(bytes: seq<Byte>)
      requires Valid()
      modifies this`itmBuffer, this`calls, streams.Values
      ensures Valid() && streams == old(streams)
      ensures var d := Decode(old(itmBuffer) + bytes, streams.Keys);
              && itmBuffer == d.rest && calls == old(calls) + d.calls
              && AllFed(old(Buffers()), old(Outputs()), d.calls)
    {
      hide Decode, CallOf, FedBy, TextFor, IsHeader, PayloadSize, StreamId, Ascii;
      var bstring := itmBuffer + bytes;
      ghost var all, known := bstring, streams.Keys;
      ghost var done: seq<Call> := [];
      itmBuffer := [];
      NothingFed(this);
      assert [] + Decode(all, known).calls == Decode(all, known).calls && calls + [] == calls;
      while |bstring| > 0
        invariant Decode(all, known) == Decoded(done + Decode(bstring, known).calls, Decode(bstring, known).rest)
        invariant itmBuffer == [] && calls == old(calls) + done
        invariant AllFed(old(Buffers()), old(Outputs()), done)
        decreases |bstring|
      {
        var header := bstring[0];
        DecodeHead(bstring, known);
        if !IsHeader(header) {
          bstring := bstring[1..];
          continue;
        }
        var size := PayloadSize(header);
        var id := StreamId(header);
        if size >= |bstring| {
          itmBuffer := bstring;
          assert done + [] == done;
          return;
        }
        ghost var call := CallOf(header, bstring[1..size + 1], known);
        ghost var rest := bstring[size + 1..];
        Assoc(done, call, Decode(rest, known).calls);
        Assoc(old(calls), done, call);
        CallIs(header, bstring[1..size + 1], known);
        calls := calls + call;
        if id in streams {
          Deliver(id, Ascii(bstring[1..size + 1]), old(Buffers()), old(Outputs()), done);
        } else {
          assert done + [] == done;
        }
        done := done + call;
        bstring := bstring[size + 1..];
      }
      DecodeNothing(known);
      assert bstring == [] && done + [] == done;
    }

    /** Handles one message of the Tcl server; raised says that an exception ended the program. */
    method ParseTclMessage(line: seq<Byte>) returns (raised: bool)
      requires Valid()
      modifies this`itmBuffer, this`calls, streams.Values
      ensures Valid() && streams == old(streams)
      ensures var s := HandleAll(old(itmBuffer), [line], streams.Keys);
              && raised == s.raised && itmBuffer == s.itm && calls == old(calls) + s.calls
              && AllFed(old(Buffers()), old(Outputs()), s.calls)
    {
      hide Decode, FedBy, TextFor, HexInt, ToBytes, HandleAll;
      HandleOne(itmBuffer, line, streams.Keys);
      NothingFed(this);
      assert calls + [] == calls;
      if !IsTrace(line) {
        return false;
      }
      var hex := line[23..|line| - 2];
      var value := HexInt(hex);
      if value.None? {
        return true;
      }
      var bytes := ToBytes(value.value, |hex| / 2);
      if bytes.None? {
        return true;
      }
      ParseItmBytes(bytes.value);
      raised := false;
    }
  }

  /** The connection to the Tcl server: the part of the main loop between two receptions. */
  class Connection {
    const manager: StreamManager
    var tclBuf: seq<Byte>

    constructor (manager: StreamManager)
      ensures this.manager == manager && tclBuf == []
    {
      this.manager, tclBuf := manager, [];
    }

    /** Handles one more message of a session that began with itm0, b0, o0 and calls0. */
    method HandleNext(message: seq<Byte>, ghost itm0: seq<Byte>, ghost b0: map<nat, string>,
                      ghost o0: map<nat, seq<string>>, ghost calls0: seq<Call>,
                      ghost messages: seq<seq<Byte>>, ghost done: seq<Call>)
        returns (raised: bool, ghost made: seq<Call>)
      requires manager.Valid() && b0.Keys == o0.Keys == manager.streams.Keys
      requires HandleAll(itm0, messages, manager.streams.Keys) == Session(done, manager.itmBuffer, false)
      requires manager.calls == calls0 + done && manager.AllFed(b0, o0, done)
      modifies manager`itmBuffer, manager`calls, manager.streams.Values
      ensures manager.Valid() && manager.streams == old(manager.streams)
      ensures HandleAll(itm0, messages + [message], manager.streams.Keys) == Session(made, manager.itmBuffer, raised)
      ensures manager.calls == calls0 + made && manager.AllFed(b0, o0, made)
    {
      hide Decode, FedBy, TextFor, HandleAll;
      ghost var known := manager.streams.Keys;
      HandleConcat(itm0, messages, [message], known);
      ghost var b1, o1 := manager.Buffers(), manager.Outputs();
      FedValues(manager, b0, o0, done);
      ghost var s := HandleAll(manager.itmBuffer, [message], known);
      raised := manager.ParseTclMessage(message);
      Assoc(calls0, done, s.calls);
      FedAgain(manager, b0, o0, b1, o1, done, s.calls);
      made := done + s.calls;
    }

    /** Handles every message that data completes; stops at an exception. */
    method OnReceive(data: seq<Byte>) returns (raised: bool)
      requires manager.Valid()
      modifies this`tclBuf, manager`itmBuffer, manager`calls, manager.streams.Values
      ensures manager.Valid() && manager.streams == old(manager.streams)
      ensures var framed := Frames(old(tclBuf) + data);
              var s := HandleAll(old(manager.itmBuffer), framed.messages, manager.streams.Keys);
              && raised == s.raised && (!raised ==> tclBuf == framed.rest)
              && manager.itmBuffer == s.itm && manager.calls == old(manager.calls) + s.calls
              && manager.AllFed(old(manager.Buffers()), old(manager.Outputs()), s.calls)
    {
      hide HandleAll, Frames, Span, FedBy;
      tclBuf := tclBuf + data;
      ghost var all := Frames(tclBuf);
      ghost var known, itm0 := manager.streams.Keys, manager.itmBuffer;
      ghost var messages: seq<seq<Byte>>, done: seq<Call> := [], [];
      raised := false;
      HandleNothing(itm0, known);
      NothingFed(manager);
      assert [] + all.messages == all.messages && manager.calls + [] == manager.calls;
      var n := Span(tclBuf, {TERMINATOR});
      while n < |tclBuf|
        invariant manager.Valid() && manager.streams == old(manager.streams)
        invariant n == Span(tclBuf, {TERMINATOR})
        invariant all == Framed(messages + Frames(tclBuf).messages, Frames(tclBuf).rest)
        invariant HandleAll(itm0, messages, known) == Session(done, manager.itmBuffer, false)
        invariant manager.calls == old(manager.calls) + done
        invariant manager.AllFed(old(manager.Buffers()), old(manager.Outputs()), done)
        decreases |tclBuf|
      {
        var message := tclBuf[..n];
        FramesHead(tclBuf);
        ghost var others := Frames(tclBuf[n + 1..]).messages;
        Assoc(messages, [message], others);
        raised, done := HandleNext(message, itm0, old(manager.Buffers()), old(manager.Outputs()), old(manager.calls),
                                   messages, done);
        messages := messages + [message];
        if raised {
          HandleConcat(itm0, messages, others, known);
          return;
        }
        tclBuf := tclBuf[n + 1..];
        n := Span(tclBuf, {TERMINATOR});
      }
      FramesEnd(tclBuf);
      assert messages + [] == messages;
    }

    /** Handles one more reception of a session that began with itm0, b0, o0 and calls0. */
    method ReceiveNext(data: seq<Byte>, ghost itm0: seq<Byte>, ghost b0: map<nat, string>,
                       ghost o0: map<nat, seq<string>>, ghost calls0: seq<Call>,
                       ghost messages: seq<seq<Byte>>, ghost done: seq<Call>)
        returns (raised: bool, ghost made: seq<Call>)
      requires manager.Valid() && b0.Keys == o0.Keys == manager.streams.Keys
      requires HandleAll(itm0, messages, manager.streams.Keys) == Session(done, manager.itmBuffer, false)
      requires manager.calls == calls0 + done && manager.AllFed(b0, o0, done)
      modifies this`tclBuf, manager`itmBuffer, manager`calls, manager.streams.Values
      ensures manager.Valid() && manager.streams == old(manager.streams)
      ensures var framed := Frames(old(tclBuf) + data);
              && HandleAll(itm0, messages + framed.messages, manager.streams.Keys)
                 == Session(made, manager.itmBuffer, raised)
              && (!raised ==> tclBuf == framed.rest)
      ensures manager.calls == calls0 + made && manager.AllFed(b0, o0, made)
    {
      hide FedBy, TextFor, HandleAll, Frames;
      ghost var framed, known := Frames(tclBuf + data), manager.streams.Keys;
      HandleConcat(itm0, messages, framed.messages, known);
      ghost var b1, o1 := manager.Buffers(), manager.Outputs();
      FedValues(manager, b0, o0, done);
      ghost var s := HandleAll(manager.itmBuffer, framed.messages, known);
      raised := OnReceive(data);
      Assoc(calls0, done, s.calls);
      FedAgain(manager, b0, o0, b1, o1, done, s.calls);
      made := done + s.calls;
    }

    /** Any number of receptions: what the streams hold and have put out afterwards depends on the
        received bytes only, not on how they were cut. Stops at an exception. */
    method ReceiveAll(chunks: seq<seq<Byte>>) returns (raised: bool)
      requires manager.Valid() && Frames(tclBuf) == Framed([], tclBuf)
      modifies this`tclBuf, manager`itmBuffer, manager`calls, manager.streams.Values
      ensures manager.Valid() && manager.streams == old(manager.streams)
      ensures var framed := Frames(old(tclBuf) + Flatten(chunks));
              var s := HandleAll(old(manager.itmBuffer), framed.messages, manager.streams.Keys);
              && raised == s.raised && (!raised ==> tclBuf == framed.rest)
              && manager.itmBuffer == s.itm && manager.calls == old(manager.calls) + s.calls
              && manager.AllFed(old(manager.Buffers()), old(manager.Outputs()), s.calls)
    {
      hide HandleAll, Frames, Flatten, FedBy;
      ghost var known, itm0, buf0 := manager.streams.Keys, manager.itmBuffer, tclBuf;
      ghost var messages: seq<seq<Byte>>, done: seq<Call> := [], [];
      raised := false;
      HandleNothing(itm0, known);
      NothingFed(manager);
      FlattenNothing(buf0);
      assert chunks[..0] == [] && manager.calls + [] == manager.calls;
      var i := 0;
      while i < |chunks|
        invariant 0 <= i <= |chunks|
        invariant manager.Valid() && manager.streams == old(manager.streams)
        invariant Frames(buf0 + Flatten(chunks[..i])) == Framed(messages, tclBuf)
        invariant HandleAll(itm0, messages, known) == Session(done, manager.itmBuffer, false)
        invariant manager.calls == old(manager.calls) + done
        invariant manager.AllFed(old(manager.Buffers()), old(manager.Outputs()), done)
      {
        FramesOfNextChunk(buf0, chunks, i);
        ghost var framed := Frames(tclBuf + chunks[i]);
        raised, done := ReceiveNext(chunks[i], itm0, old(manager.Buffers()), old(manager.Outputs()),
                                    old(manager.calls), messages, done);
        messages := messages + framed.messages;
        i := i + 1;
        if raised {
          ghost var more := FramesBehind(buf0, chunks, i);
          HandleConcat(itm0, messages, more, known);
          return;
        }
      }
      assert chunks[..i] == chunks;
    }
  }

  /** What a device writes to a stream is what the stream is fed, by whatever receptions. */
  lemma DeviceTextIsFed(m: StreamManager, b0: map<nat, string>, o0: map<nat, seq<string>>,
                        packets: seq<Packet>, groups: seq<seq<Byte>>, chunks: seq<seq<Byte>>, id: nat, s: string)
    requires b0.Keys == o0.Keys == m.streams.Keys && id in m.streams
    requires m.AllFed(b0, o0, Receive([], [], chunks, m.streams.Keys).calls)
    requires AllValid(packets) && forall p :: p in packets ==> |p.payload| != 2
    requires Flatten(groups) == Encode(packets) && forall g :: g in groups ==> g != []
    requires Flatten(chunks) == Wire(TraceLines(groups))
    requires IsAsciiText(s) && PayloadFor(id, packets) == Codes(s)
    ensures FedBy(m.streams[id], b0[id], o0[id], s)
  {
    hide FedBy, Receive, Codes, Encode, Wire, Flatten;
    DeviceTextArrives(packets, groups, chunks, m.streams.Keys, id, s);
  }

  lemma FlattenNothing(buffer: seq<Byte>)
    ensures buffer + Flatten([]) == buffer
  {
  }

  lemma FramesOfNextChunk(buffer: seq<Byte>, chunks: seq<seq<Byte>>, i: nat)
    requires i < |chunks|
    ensures var first := Frames(buffer + Flatten(chunks[..i]));
            var second := Frames(first.rest + chunks[i]);
            Frames(buffer + Flatten(chunks[..i + 1])) == Framed(first.messages + second.messages, second.rest)
  {
    hide Frames;
    FlattenConcat(chunks[..i], [chunks[i]]);
    assert chunks[..i] + [chunks[i]] == chunks[..i + 1];
    assert Flatten([chunks[i]]) == chunks[i];
    Assoc(buffer, Flatten(chunks[..i]), chunks[i]);
    FramesConcat(buffer + Flatten(chunks[..i]), chunks[i]);
  }

  /** The messages of some receptions come first among those of all. */
  lemma FramesBehind(buffer: seq<Byte>, chunks: seq<seq<Byte>>, i: nat) returns (more: seq<seq<Byte>>)
    requires i <= |chunks|
    ensures Frames(buffer + Flatten(chunks)).messages == Frames(buffer + Flatten(chunks[..i])).messages + more
  {
    hide Frames, Flatten;
    var front, back := Flatten(chunks[..i]), Flatten(chunks[i..]);
    FlattenConcat(chunks[..i], chunks[i..]);
    assert chunks[..i] + chunks[i..] == chunks;
    Assoc(buffer, front, back);
    FramesConcat(buffer + front, back);
    more := Frames(Frames(buffer + front).rest + back).messages;
  }

  lemma FramesHead(buffer: seq<Byte>)
    requires Span(buffer, {TERMINATOR}) < |buffer|
    ensures var n := Span(buffer, {TERMINATOR});
            Frames(buffer) == Framed([buffer[..n]] + Frames(buffer[n + 1..]).messages, Frames(buffer[n + 1..]).rest)
  {
    hide Span;
    var n := Span(buffer, {TERMINATOR});
    var others := Frames(buffer[n + 1..]);
    assert Frames(buffer) == Framed([buffer[..n]] + others.messages, others.rest);
  }

  lemma FramesEnd(buffer: seq<Byte>)
    requires Span(buffer, {TERMINATOR}) == |buffer|
    ensures Frames(buffer) == Framed([], buffer)
  {
  }

  lemma HandleOne(itm: seq<Byte>, line: seq<Byte>, known: set<nat>)
    ensures HandleAll(itm, [line], known) ==
            match ParseTcl(line)
            case Ignored => Session([], itm, false)
            case Raised => Session([], itm, true)
            case Trace(bytes) => Session(Decode(itm + bytes, known).calls, Decode(itm + bytes, known).rest, false)
  {
    hide ParseTcl, Decode;
    HandleNothing(itm, known);
    if ParseTcl(line).Trace? {
      var d := Decode(itm + ParseTcl(line).bytes, known);
      HandleNothing(d.rest, known);
      assert d.calls + [] == d.calls;
    }
  }

  /** What one feeding leaves behind, as values. */
  ghost predicate IsFeeding(m: StreamManager, b0: map<nat, string>, o0: map<nat, seq<string>>,
                            b1: map<nat, string>, o1: map<nat, seq<string>>, done: seq<Call>)
    requires b0.Keys == o0.Keys == b1.Keys == o1.Keys == m.streams.Keys
    reads m`streams
  {
    forall a :: a in m.streams ==>
      var p := AddChars(b0[a], TextFor(a, done));
      b1[a] == p.buffer && o1[a] == o0[a] + RenderAll(m.streams[a].id, m.streams[a].header, p.emitted)
  }

  lemma FedValues(m: StreamManager, b0: map<nat, string>, o0: map<nat, seq<string>>, done: seq<Call>)
    requires b0.Keys == o0.Keys == m.streams.Keys && m.AllFed(b0, o0, done)
    ensures IsFeeding(m, b0, o0, m.Buffers(), m.Outputs(), done)
  {
    forall a | a in m.streams
      ensures FedBy(m.streams[a], b0[a], o0[a], TextFor(a, done))
    {
    }
  }

  lemma FedAgain(m: StreamManager, b0: map<nat, string>, o0: map<nat, seq<string>>,
                 b1: map<nat, string>, o1: map<nat, seq<string>>, first: seq<Call>, second: seq<Call>)
    requires b0.Keys == o0.Keys == b1.Keys == o1.Keys == m.streams.Keys
    requires IsFeeding(m, b0, o0, b1, o1, first)
    requires m.AllFed(b1, o1, second)
    ensures m.AllFed(b0, o0, first + second)
  {
    hide AddChars, RenderAll, TextFor;
    forall a | a in m.streams
      ensures FedBy(m.streams[a], b0[a], o0[a], TextFor(a, first + second))
    {
      var s := m.streams[a];
      assert FedBy(s, b1[a], o1[a], TextFor(a, second));
      TextForConcat(a, first, second);
      FeedTwice(s.id, s.header, b0[a], TextFor(a, first), TextFor(a, second));
      var p := AddChars(b0[a], TextFor(a, first));
      var q := AddChars(p.buffer, TextFor(a, second));
      Assoc(o0[a], RenderAll(s.id, s.header, p.emitted), RenderAll(s.id, s.header, q.emitted));
    }
  }

  lemma NothingFed(m: StreamManager)
    ensures m.AllFed(m.Buffers(), m.Outputs(), [])
  {
    forall a | a in m.streams
      ensures FedBy(m.streams[a], m.streams[a].buffer, m.streams[a].output, TextFor(a, []))
    {
      assert m.streams[a].output + [] == m.streams[a].output;
    }
  }

  /** Feeding the text of one more call, to the stream it names and to no other. */
  lemma FeedCall(a: nat, header: string, buffer: string, output: seq<string>, done: seq<Call>, call: Call)
    ensures var before := AddChars(buffer, TextFor(a, done));
            var after := AddChars(buffer, TextFor(a, done + [call]));
            if call.id == a then
              var p := AddChars(before.buffer, call.text);
              && after.buffer == p.buffer
              && output + RenderAll(a, header, after.emitted)
                 == output + RenderAll(a, header, before.emitted) + RenderAll(a, header, p.emitted)
            else after == before
  {
    hide AddChars, RenderAll;
    TextForConcat(a, done, [call]);
    var text := if call.id == a then call.text else "";
    assert TextFor(a, [call]) == text + "";
    assert text + "" == text;
    if call.id == a {
      FeedTwice(a, header, buffer, TextFor(a, done), call.text);
    } else {
      assert TextFor(a, done) + "" == TextFor(a, done);
    }
  }
}
