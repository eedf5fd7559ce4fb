/**
 Decoding of ITM trace packets: a header byte and its payload, incrementally
 over chunks of bytes, forwarded to the stream the header names.
 */
module Itm {
  import opened Machine
  import opened Text

  /** The third bit of a header is zero, its last two bits are not both zero. */
  predicate IsHeader(b: Byte) {
    b & 4 == 0 && b & 3 != 0
  }

  /** The payload size the decoder takes: the operators of the program's expression group as 2 ** (header & 2). */
  function PayloadSize(header: Byte): (n: nat)
    ensures n == 1 || n == 4
  {
    if header & 2 == 0 then 1 else 4
  }

  function StreamId(header: Byte): nat {
    (header >> 3) as nat
  }

  /** One call of a stream's character sink. */
  datatype Call = Call(id: nat, text: string)

  /** Decoding bytes as ASCII leaves out what is not ASCII. */
  function Ascii(bytes: seq<Byte>): string {
    if bytes == [] then ""
    else (if bytes[0] < 128 then [bytes[0] as char] else "") + Ascii(bytes[1..])
  }

  datatype Decoded = Decoded(calls: seq<Call>, rest: seq<Byte>)

  /** The call a complete packet makes, if its stream is known. */
  function CallOf(header: Byte, payload: seq<Byte>, known: set<nat>): seq<Call> {
    if StreamId(header) in known then [Call(StreamId(header), Ascii(payload))] else []
  }

  /** The calls that bytes make and the incomplete packet they end with. */
  function Decode(bytes: seq<Byte>, known: set<nat>): Decoded
    decreases |bytes|
  {
    if bytes == [] then Decoded([], [])
    else if !IsHeader(bytes[0]) then Decode(bytes[1..], known)
    else
      var n := PayloadSize(bytes[0]);
      if n >= |bytes| then Decoded([], bytes)
      else
        var r := Decode(bytes[n + 1..], known);
        Decoded(CallOf(bytes[0], bytes[1..n + 1], known) + r.calls, r.rest)
  }

  lemma DecodeNothing(known: set<nat>)
    ensures Decode([], known) == Decoded([], [])
  {
  }

  /** One turn of the decoding loop. */
  lemma DecodeHead(bytes: seq<Byte>, known: set<nat>)
    requires bytes != []
    ensures var n := PayloadSize(bytes[0]);
            Decode(bytes, known) ==
            if !IsHeader(bytes[0]) then Decode(bytes[1..], known)
            else if n >= |bytes| then Decoded([], bytes)
            else
              var r := Decode(bytes[n + 1..], known);
              Decoded(CallOf(bytes[0], bytes[1..n + 1], known) + r.calls, r.rest)
  {
  }

  lemma CutPacket(a: seq<Byte>, b: seq<Byte>, n: nat)
    requires n <= |a|
    ensures (a + b)[n..] == a[n..] + b
    ensures n > 0 ==> (a + b)[0] == a[0] && (a + b)[1..n] == a[1..n]
  {
  }

  /** Cutting the input in two: decoding a part and then the retained bytes with the
      other part makes the same calls and retains the same bytes as decoding all at once. */
  lemma {:induction false} DecodeConcat(a: seq<Byte>, b: seq<Byte>, known: set<nat>)
    ensures var first := Decode(a, known);
            var second := Decode(first.rest + b, known);
            Decode(a + b, known) == Decoded(first.calls + second.calls, second.rest)
    decreases |a|
  {
    hide Decode, CallOf, PayloadSize, IsHeader;
    var all := a + b;
    assert [] + Decode(all, known).calls == Decode(all, known).calls;
    if a == [] {
      assert all == b && [] + b == b;
      DecodeNothing(known);
    } else {
      DecodeHead(a, known);
      DecodeHead(all, known);
      var n := PayloadSize(a[0]);
      if !IsHeader(a[0]) {
        CutPacket(a, b, 1);
        DecodeConcat(a[1..], b, known);
      } else if n < |a| {
        CutPacket(a, b, n + 1);
        DecodeConcat(a[n + 1..], b, known);
        var first := Decode(a[n + 1..], known);
        Assoc(CallOf(a[0], a[1..n + 1], known), first.calls, Decode(first.rest + b, known).calls);
      }
    }
  }

  /** The retained bytes are nothing or one incomplete packet that starts with a header. */
  lemma {:induction false} RetainedIsPartialPacket(bytes: seq<Byte>, known: set<nat>)
    ensures var rest := Decode(bytes, known).rest;
            rest == [] || (IsHeader(rest[0]) && |rest| <= PayloadSize(rest[0]) <= 4)
    decreases |bytes|
  {
    if bytes != [] {
      if !IsHeader(bytes[0]) {
        RetainedIsPartialPacket(bytes[1..], known);
      } else if PayloadSize(bytes[0]) < |bytes| {
        RetainedIsPartialPacket(bytes[PayloadSize(bytes[0]) + 1..], known);
      }
    }
  }

  /** Decoding a sequence of chunks, from retained bytes. */
  function DecodeChunks(retained: seq<Byte>, chunks: seq<seq<Byte>>, known: set<nat>): Decoded
    decreases |chunks|
  {
    if chunks == [] then Decoded([], retained)
    else
      var first := Decode(retained + chunks[0], known);
      var others := DecodeChunks(first.rest, chunks[1..], known);
      Decoded(first.calls + others.calls, others.rest)
  }

  function Flatten<T>(chunks: seq<seq<T>>): seq<T> {
    if chunks == [] then [] else chunks[0] + Flatten(chunks[1..])
  }

  lemma {:induction false} FlattenConcat<T>(a: seq<seq<T>>, b: seq<seq<T>>)
    ensures Flatten(a + b) == Flatten(a) + Flatten(b)
  {
    if a == [] {
      assert a + b == b;
    } else {
      FlattenConcat(a[1..], b);
      assert (a + b)[1..] == a[1..] + b;
      Assoc(a[0], Flatten(a[1..]), Flatten(b));
    }
  }

  /** Any chunking gives the calls, in their global order, and the retained bytes of the whole at once. */
  lemma {:induction false} ChunkingIsIrrelevant(retained: seq<Byte>, chunks: seq<seq<Byte>>, known: set<nat>)
    requires chunks != []
    ensures DecodeChunks(retained, chunks, known) == Decode(retained + Flatten(chunks), known)
    decreases |chunks|
  {
    var first := Decode(retained + chunks[0], known);
    Assoc(retained, chunks[0], Flatten(chunks[1..]));
    DecodeConcat(retained + chunks[0], Flatten(chunks[1..]), known);
    if |chunks| == 1 {
      assert first.rest + [] == first.rest;
      RetainedIsStable(retained + chunks[0], known);
    } else {
      ChunkingIsIrrelevant(first.rest, chunks[1..], known);
    }
  }

  /** The retained bytes make no call by themselves. */
  lemma {:induction false} RetainedIsStable(bytes: seq<Byte>, known: set<nat>)
    ensures Decode(Decode(bytes, known).rest, known) == Decoded([], Decode(bytes, known).rest)
  {
    RetainedIsPartialPacket(bytes, known);
  }

  // ---- Against the packet format of appendix D4 of the ARMv7-M Architecture Reference Manual ----

  /** An instrumentation packet: a stimulus port and one, two or four bytes. */
  datatype Packet = Packet(port: nat, payload: seq<Byte>) {
    predicate Valid() {
      port < 32 && |payload| in {1, 2, 4}
    }
  }

  function SizeCode(n: nat): Byte {
    if n == 1 then 1 else if n == 2 then 2 else 3
  }

  function HeaderOf(p: Packet): Byte
    requires p.Valid()
  {
    ((p.port as bv8) << 3) | SizeCode(|p.payload|)
  }

  ghost predicate AllValid(packets: seq<Packet>) {
    forall p :: p in packets ==> p.Valid()
  }

  function Encode(packets: seq<Packet>): seq<Byte>
    requires AllValid(packets)
  {
    if packets == [] then [] else [HeaderOf(packets[0])] + packets[0].payload + Encode(packets[1..])
  }

  function CallsOf(packets: seq<Packet>, known: set<nat>): seq<Call> {
    if packets == [] then []
    else (if packets[0].port in known then [Call(packets[0].port, Ascii(packets[0].payload))] else [])
         + CallsOf(packets[1..], known)
  }

  /** The decoder takes the payload size of the format for every packet but those of two bytes. */
  lemma SizeAgreesIff(p: Packet)
    requires p.Valid()
    ensures IsHeader(HeaderOf(p)) && StreamId(HeaderOf(p)) == p.port
    ensures PayloadSize(HeaderOf(p)) == |p.payload| <==> |p.payload| != 2
    ensures |p.payload| == 2 ==> PayloadSize(HeaderOf(p)) == 4
  {
    var port := p.port as bv8;
    assert ((port << 3) | 1) & 4 == 0 && ((port << 3) | 2) & 4 == 0 && ((port << 3) | 3) & 4 == 0;
    assert ((port << 3) | 1) & 3 == 1 && ((port << 3) | 2) & 3 == 2 && ((port << 3) | 3) & 3 == 3;
    assert ((port << 3) | 1) & 2 == 0 && ((port << 3) | 2) & 2 == 2 && ((port << 3) | 3) & 2 == 2;
    assert ((port << 3) | 1) >> 3 == port && ((port << 3) | 2) >> 3 == port && ((port << 3) | 3) >> 3 == port;
  }

  /** What a device sends in packets of one and four bytes is decoded exactly. */
  lemma {:induction false} DecodeOfEncode(packets: seq<Packet>, known: set<nat>)
    requires AllValid(packets) && forall p :: p in packets ==> |p.payload| != 2
    ensures Decode(Encode(packets), known) == Decoded(CallsOf(packets, known), [])
    decreases |packets|
  {
    if packets != [] {
      var p := packets[0];
      assert p in packets;
      SizeAgreesIff(p);
      DecodeOfEncode(packets[1..], known);
      var bytes := Encode(packets);
      var n := |p.payload|;
      assert bytes[0] == HeaderOf(p) && bytes[1..n + 1] == p.payload && bytes[n + 1..] == Encode(packets[1..]);
    }
  }

  lemma {:induction false} AsciiConcat(a: seq<Byte>, b: seq<Byte>)
    ensures Ascii(a + b) == Ascii(a) + Ascii(b)
  {
    if a == [] {
      assert a + b == b;
    } else {
      AsciiConcat(a[1..], b);
      assert (a + b)[1..] == a[1..] + b;
      Assoc(if a[0] < 128 then [a[0] as char] else "", Ascii(a[1..]), Ascii(b));
    }
  }

  lemma AsciiOfFirst(bytes: seq<Byte>)
    requires bytes != [] && bytes[0] < 128
    ensures |Ascii(bytes)| > 0
  {
  }

  /** The header of a stream below 16 is an ASCII character. */
  lemma LowHeaderIsAscii(p: Packet)
    requires p.Valid() && p.port < 16
    ensures HeaderOf(p) < 128
  {
    var port := p.port as bv8;
    assert port < 16 ==> (port << 3) | 1 < 128 && (port << 3) | 2 < 128 && (port << 3) | 3 < 128;
  }

  lemma EncodeHead(packets: seq<Packet>)
    requires AllValid(packets) && packets != []
    ensures AllValid(packets[1..]) && packets[0] in packets
    ensures var bytes, p, tail := Encode(packets), packets[0], Encode(packets[1..]);
            && |bytes| == 1 + |p.payload| + |tail| && bytes[0] == HeaderOf(p)
            && bytes[1..|p.payload| + 1] == p.payload && bytes[|p.payload| + 1..] == tail
  {
    hide HeaderOf;
    assert packets[0] in packets;
    assert forall p :: p in packets[1..] ==> p in packets;
  }

  lemma SameTail<T>(c: T, x: seq<T>, y: seq<T>)
    ensures [c] + x == [c] + y <==> x == y
  {
    assert ([c] + x)[1..] == x && ([c] + y)[1..] == y;
  }

  /** Four bytes read for two: the text of a two-byte packet grows by the header behind it. */
  lemma MisreadTextIsLonger(bytes: seq<Byte>, payload: seq<Byte>)
    requires |bytes| > 4 && |payload| == 2 && bytes[1..3] == payload && bytes[3] < 128
    ensures Ascii(bytes[1..5]) != Ascii(payload)
  {
    hide Ascii;
    var behind := bytes[3..5];
    assert bytes[1..5] == payload + behind && behind[0] == bytes[3];
    AsciiConcat(payload, behind);
    AsciiOfFirst(behind);
  }

  /** The first packet has two bytes: what is decoded is not what was sent. */
  lemma FirstIsMisread(packets: seq<Packet>, known: set<nat>)
    requires AllValid(packets) && packets != [] && |packets[0].payload| == 2
    requires forall p :: p in packets ==> p.port in known && p.port < 16
    ensures Decode(Encode(packets), known) != Decoded(CallsOf(packets, known), [])
  {
    hide Decode, Encode, HeaderOf, StreamId, IsHeader, Ascii;
    var p, others, bytes := packets[0], packets[1..], Encode(packets);
    EncodeHead(packets);
    SizeAgreesIff(p);
    DecodeHead(bytes, known);
    assert CallsOf(packets, known)[0] == Call(p.port, Ascii(p.payload));
    if |bytes| > 4 {
      EncodeOfNone();
      EncodeHead(others);
      LowHeaderIsAscii(others[0]);
      assert others[0] in packets;
      assert bytes[3] == bytes[3..][0];
      MisreadTextIsLonger(bytes, p.payload);
    }
  }

  /** A trace on known streams below 16 is decoded exactly if and only if it has no packet of two
      bytes, whatever the payloads are. */
  lemma {:induction false} TextIsDecodedIff(packets: seq<Packet>, known: set<nat>)
    requires AllValid(packets) && forall p :: p in packets ==> p.port in known && p.port < 16
    ensures Decode(Encode(packets), known) == Decoded(CallsOf(packets, known), [])
            <==> forall p :: p in packets ==> |p.payload| != 2
    decreases |packets|
  {
    hide Decode, Encode, HeaderOf, StreamId, IsHeader, PayloadSize, Ascii;
    if packets == [] {
      EncodeOfNone();
      DecodeNothing(known);
    } else {
      var p, others := packets[0], packets[1..];
      assert packets == [p] + others;
      if |p.payload| == 2 {
        FirstIsMisread(packets, known);
      } else {
        EncodeHead(packets);
        SizeAgreesIff(p);
        DecodeHead(Encode(packets), known);
        TextIsDecodedIff(others, known);
        SameTail(Call(p.port, Ascii(p.payload)), Decode(Encode(others), known).calls, CallsOf(others, known));
      }
    }
  }

  /** The bound on the streams is needed: from 16 on a header is not ASCII, and two misreadings can
      make up for one another. */
  lemma HighStreamsCanHideIt()
    ensures var packets := [Packet(0, [0x61, 0x62]), Packet(16, [0x80, 0x81, 0x63, 0x80])];
            AllValid(packets) && Decode(Encode(packets), {0, 16}) == Decoded(CallsOf(packets, {0, 16}), [])
  {
    hide Decode, Encode, Ascii, CallsOf;
    var p, q := Packet(0, [0x61, 0x62]), Packet(16, [0x80, 0x81, 0x63, 0x80]);
    EncodeOfTwo(p, q);
    CallsOfTwo(p, q, {0, 16});
    TwoHeaders(p, q);
    assert [HeaderOf(p)] + p.payload + ([HeaderOf(q)] + q.payload) == MISREAD_TWICE;
    MisreadTwice();
    ShortTexts();
  }

  /** Stream 0 with two bytes, then stream 16 with four, one of which looks like a header of stream 16. */
  const MISREAD_TWICE: seq<Byte> := [0x02, 0x61, 0x62, 0x83, 0x80, 0x81, 0x63, 0x80]

  lemma TwoHeaders(p: Packet, q: Packet)
    requires p.port == 0 && |p.payload| == 2 && q.port == 16 && |q.payload| == 4
    ensures HeaderOf(p) == 0x02 && HeaderOf(q) == 0x83
  {
    assert p.port as bv8 == 0 && q.port as bv8 == 16;
    assert (0 as bv8) << 3 == 0 && (16 as bv8) << 3 == 0x80;
  }

  lemma MisreadTwice()
    ensures Decode(MISREAD_TWICE, {0, 16})
            == Decoded([Call(0, Ascii([0x61, 0x62, 0x83, 0x80])), Call(16, Ascii([0x63]))], [])
  {
    hide Decode, Ascii;
    var known: set<nat> := {0, 16};
    var first: seq<Byte>, second: seq<Byte>, third: seq<Byte> := [0x61, 0x62, 0x83, 0x80], [0x81, 0x63, 0x80], [0x80];
    var text: seq<Byte> := [0x63];
    assert StreamId(0x02) == 0 && StreamId(0x81) == 16;
    DecodeHead(MISREAD_TWICE, known);
    assert MISREAD_TWICE[1..5] == first && MISREAD_TWICE[5..] == second;
    DecodeHead(second, known);
    assert second[1..2] == text && second[2..] == third;
    DecodeHead(third, known);
    assert third[1..] == [];
    DecodeNothing(known);
  }

  lemma EncodeOfTwo(p: Packet, q: Packet)
    requires p.Valid() && q.Valid()
    ensures AllValid([p, q]) && Encode([p, q]) == [HeaderOf(p)] + p.payload + ([HeaderOf(q)] + q.payload)
  {
    hide HeaderOf;
    assert [p, q][1..] == [q] && [q][1..] == [];
    EncodeOfNone();
    assert Encode([q]) == [HeaderOf(q)] + q.payload + Encode([]);
    assert [HeaderOf(q)] + q.payload + [] == [HeaderOf(q)] + q.payload;
  }

  lemma CallsOfTwo(p: Packet, q: Packet, known: set<nat>)
    requires p.port in known && q.port in known
    ensures CallsOf([p, q], known) == [Call(p.port, Ascii(p.payload)), Call(q.port, Ascii(q.payload))]
  {
    hide Ascii;
    assert [p, q][1..] == [q] && [q][1..] == [];
    assert CallsOf([q], known) == [Call(q.port, Ascii(q.payload))] + CallsOf([], known);
  }

  lemma ShortTexts()
    ensures Ascii([0x61, 0x62]) == Ascii([0x61, 0x62, 0x83, 0x80])
    ensures Ascii([0x80, 0x81, 0x63, 0x80]) == Ascii([0x63])
  {
    hide Ascii;
    var lower: seq<Byte>, c: seq<Byte> := [0x61, 0x62], [0x63];
    var behind: seq<Byte>, before: seq<Byte>, last: seq<Byte> := [0x83, 0x80], [0x80, 0x81], [0x80];
    NoAscii(behind);
    NoAscii(before);
    NoAscii(last);
    AsciiConcat(lower, behind);
    AsciiConcat(before, c + last);
    AsciiConcat(c, last);
    assert lower + behind == [0x61, 0x62, 0x83, 0x80] && before + (c + last) == [0x80, 0x81, 0x63, 0x80];
    assert Ascii(lower) + "" == Ascii(lower) && Ascii(c) + "" == Ascii(c) && "" + Ascii(c) == Ascii(c);
  }

  lemma {:induction false} NoAscii(bytes: seq<Byte>)
    requires forall k :: 0 <= k < |bytes| ==> bytes[k] >= 128
    ensures Ascii(bytes) == ""
  {
    if bytes != [] {
      NoAscii(bytes[1..]);
    }
  }

  /** So is that the streams are known: what no stream hears can be misread unnoticed. */
  lemma UnknownStreamsCanHideIt()
    ensures var packets := [Packet(0, [0x61, 0x62]), Packet(0, [0x63])];
            AllValid(packets) && Decode(Encode(packets), {}) == Decoded(CallsOf(packets, {}), [])
  {
  }

  lemma EncodeOfNone()
    ensures Encode([]) == []
  {
  }

  lemma FourBehindOne(h: Byte, a: Byte, b: Byte, c: Byte, d: Byte)
    ensures [h, a, b, c, d][1..5] == [a, b, c, d] && [h, a, b, c, d][5..] == []
  {
  }

  /** A two-byte packet takes the two bytes behind it into its text, and their packet is lost. */
  lemma TwoBytePacketIsMisread(port: nat, a: Byte, b: Byte, c: Byte, known: set<nat>)
    requires port < 32 && port in known
    ensures var packets := [Packet(port, [a, b]), Packet(port, [c])];
            Decode(Encode(packets), known)
            == Decoded([Call(port, Ascii([a, b, HeaderOf(packets[1]), c]))], [])
  {
    var p, q := Packet(port, [a, b]), Packet(port, [c]);
    SizeAgreesIff(p);
    assert Encode([q]) == [HeaderOf(q), c] by {
      assert Encode([]) == [];
    }
    var bytes := Encode([p, q]);
    assert [p, q][1..] == [q];
    assert bytes == [HeaderOf(p), a, b, HeaderOf(q), c];
    FourBehindOne(HeaderOf(p), a, b, HeaderOf(q), c);
  }

  // ---- Which bytes start a packet, and which characters come out ----

  /** The third bit clear and the last two not both clear, in numbers; every such byte is the header of some packet. */
  lemma HeaderIff(b: Byte)
    ensures IsHeader(b) <==> (b as nat) % 8 in {1, 2, 3}
    ensures IsHeader(b) <==> exists p: Packet :: p.Valid() && HeaderOf(p) == b
  {
    HeaderBits(b);
    HeaderInNumbers(b);
    if IsHeader(b) {
      HeaderOfSome(b);
    }
    forall p: Packet | p.Valid() && HeaderOf(p) == b
      ensures IsHeader(b)
    {
      SizeAgreesIff(p);
    }
  }

  lemma HeaderBits(b: Byte)
    ensures IsHeader(b) <==> b & 7 == 1 || b & 7 == 2 || b & 7 == 3
  {
  }

  lemma HeaderInNumbers(b: Byte)
    ensures (b & 7) as nat == (b as nat) % 8
  {
    HighAndLow(b);
    WordIsSum(b >> 3, b & 7);
  }

  lemma HighAndLow(b: Byte)
    ensures (b >> 3) < 32 && b & 7 < 8 && b == 8 * (b >> 3) + (b & 7)
  {
  }

  lemma WordIsSum(h: Byte, l: Byte)
    requires h < 32 && l < 8
    ensures (8 * h + l) as nat == 8 * (h as nat) + l as nat
  {
  }

  lemma HeaderOfSome(b: Byte)
    requires IsHeader(b)
    ensures exists p: Packet :: p.Valid() && HeaderOf(p) == b
  {
    var port := (b >> 3) as nat;
    var n := if b & 7 == 1 then 1 else if b & 7 == 2 then 2 else 4;
    var p := Packet(port, seq(n, _ => 0));
    HeaderBits(b);
    PortIsKept(b);
    assert HeaderOf(p) == b;
  }

  lemma PortIsKept(b: Byte)
    ensures ((b >> 3) as nat) < 32 && ((b >> 3) as nat) as bv8 == b >> 3
    ensures ((b >> 3) << 3) | (b & 7) == b
  {
  }

  /** Bytes that start no packet are skipped, one by one. */
  lemma {:induction false} NoiseIsSkipped(noise: seq<Byte>, rest: seq<Byte>, known: set<nat>)
    requires forall k :: 0 <= k < |noise| ==> (noise[k] as nat) % 8 !in {1, 2, 3}
    ensures Decode(noise + rest, known) == Decode(rest, known)
  {
    hide Decode, IsHeader;
    if noise == [] {
      assert noise + rest == rest;
    } else {
      HeaderIff(noise[0]);
      DecodeHead(noise + rest, known);
      assert (noise + rest)[1..] == noise[1..] + rest;
      NoiseIsSkipped(noise[1..], rest, known);
    }
  }

  ghost predicate IsAsciiText(s: string) {
    forall k :: 0 <= k < |s| ==> s[k] as nat < 128
  }

  function Code(c: char): (b: Byte)
    ensures c as nat < 128 ==> b as nat == c as nat
  {
    if c as nat < 128 then
      NumberOfByte(c as nat);
      c as nat as Byte
    else 0
  }

  /** The character codes of a text. */
  function Codes(s: string): (bytes: seq<Byte>)
    requires IsAsciiText(s)
    ensures |bytes| == |s| && forall k :: 0 <= k < |s| ==> bytes[k] as nat == s[k] as nat
  {
    seq(|s|, k requires 0 <= k < |s| => Code(s[k]))
  }

  /** The bytes below 128, in order. */
  function Below128(bytes: seq<Byte>): seq<Byte> {
    if bytes == [] then [] else (if bytes[0] as nat < 128 then [bytes[0]] else []) + Below128(bytes[1..])
  }

  lemma CodesConcat(s: string, t: string)
    requires IsAsciiText(s) && IsAsciiText(t)
    ensures IsAsciiText(s + t) && Codes(s + t) == Codes(s) + Codes(t)
  {
    assert forall k :: 0 <= k < |s + t| ==> (s + t)[k] == if k < |s| then s[k] else t[k - |s|];
    forall k | 0 <= k < |s + t|
      ensures Codes(s + t)[k] == (Codes(s) + Codes(t))[k]
    {
      SameByte(Codes(s + t)[k], (Codes(s) + Codes(t))[k]);
    }
  }

  lemma SameByte(a: Byte, b: Byte)
    requires a as nat == b as nat
    ensures a == b
  {
  }

  lemma CodesOfOne(b: Byte)
    requires b as nat < 128
    ensures IsAsciiText([b as char]) && Codes([b as char]) == [b]
    ensures Ascii([b]) == [b as char]
  {
    assert [b][1..] == [];
    assert (b as char) as nat == b as nat;
    SameByte(Codes([b as char])[0], b);
  }

  /** The codes of the decoded text are exactly the bytes below 128, in order. */
  lemma {:induction false} DecodedTextIsBytes(bytes: seq<Byte>)
    ensures IsAsciiText(Ascii(bytes)) && Codes(Ascii(bytes)) == Below128(bytes)
  {
    if bytes == [] {
    } else {
      DecodedTextIsBytes(bytes[1..]);
      if bytes[0] as nat < 128 {
        CodesOfOne(bytes[0]);
        assert Ascii(bytes) == [bytes[0] as char] + Ascii(bytes[1..]);
        CodesConcat([bytes[0] as char], Ascii(bytes[1..]));
      } else {
        assert Ascii(bytes) == "" + Ascii(bytes[1..]) == Ascii(bytes[1..]);
        assert Below128(bytes) == [] + Below128(bytes[1..]) == Below128(bytes[1..]);
      }
    }
  }

  lemma {:induction false} AllBelow128(bytes: seq<Byte>)
    requires forall k :: 0 <= k < |bytes| ==> bytes[k] as nat < 128
    ensures Below128(bytes) == bytes
  {
    if bytes != [] {
      AllBelow128(bytes[1..]);
    }
  }

  lemma SameCodes(s: string, t: string)
    requires IsAsciiText(s) && IsAsciiText(t) && Codes(s) == Codes(t)
    ensures s == t
  {
    forall k | 0 <= k < |s|
      ensures |t| == |s| && s[k] == t[k]
    {
      assert Codes(s)[k] as nat == s[k] as nat && Codes(t)[k] as nat == t[k] as nat;
    }
  }

  /** The codes of a text are decoded to the text. */
  lemma CodesAreDecoded(s: string)
    requires IsAsciiText(s)
    ensures Ascii(Codes(s)) == s
  {
    DecodedTextIsBytes(Codes(s));
    AllBelow128(Codes(s));
    SameCodes(Ascii(Codes(s)), s);
  }

  /** The bytes that packets carry for one stream. */
  function PayloadFor(id: nat, packets: seq<Packet>): seq<Byte> {
    if packets == [] then []
    else (if packets[0].port == id then packets[0].payload else []) + PayloadFor(id, packets[1..])
  }

  lemma {:induction false} TextOfPayload(id: nat, packets: seq<Packet>, known: set<nat>)
    requires id in known
    ensures TextFor(id, CallsOf(packets, known)) == Ascii(PayloadFor(id, packets))
  {
    hide Ascii;
    if packets == [] {
      AsciiOfNone();
    } else {
      var p, others := packets[0], packets[1..];
      TextOfPayload(id, others, known);
      var here := if p.port in known then [Call(p.port, Ascii(p.payload))] else [];
      TextForConcat(id, here, CallsOf(others, known));
      TextForOne(id, p.port, Ascii(p.payload));
      AsciiOfNone();
      AsciiConcat(if p.port == id then p.payload else [], PayloadFor(id, others));
    }
  }

  lemma AsciiOfNone()
    ensures Ascii([]) == ""
  {
  }

  lemma TextForOne(id: nat, port: nat, text: string)
    ensures TextFor(id, [Call(port, text)]) == if port == id then text else ""
    ensures TextFor(id, []) == ""
  {
    assert [Call(port, text)][1..] == [];
    assert text + "" == text;
  }

  /** The text a device writes to a stream, in packets of one and four bytes among those of other
      streams, is the text that the decoded calls bring to that stream. */
  lemma DeviceTextIsDecoded(packets: seq<Packet>, known: set<nat>, id: nat, s: string)
    requires AllValid(packets) && forall p :: p in packets ==> |p.payload| != 2
    requires id in known && IsAsciiText(s) && PayloadFor(id, packets) == Codes(s)
    ensures TextFor(id, Decode(Encode(packets), known).calls) == s
  {
    hide Decode, Encode, Ascii, Codes;
    DecodeOfEncode(packets, known);
    TextOfPayload(id, packets, known);
    CodesAreDecoded(s);
  }

  // ---- The stream manager ----

  /** The characters that calls bring to one stream. */
  function TextFor(id: nat, calls: seq<Call>): string {
    if calls == [] then "" else (if calls[0].id == id then calls[0].text else "") + TextFor(id, calls[1..])
  }

  lemma {:induction false} TextForConcat(id: nat, a: seq<Call>, b: seq<Call>)
    ensures TextFor(id, a + b) == TextFor(id, a) + TextFor(id, b)
  {
    if a == [] {
      assert a + b == b;
    } else {
      TextForConcat(id, a[1..], b);
      Assoc(if a[0].id == id then a[0].text else "", TextFor(id, a[1..]), TextFor(id, b));
      assert (a + b)[1..] == a[1..] + b;
    }
  }

  lemma CallIs(header: Byte, payload: seq<Byte>, known: set<nat>)
    ensures CallOf(header, payload, known)
            == if StreamId(header) in known then [Call(StreamId(header), Ascii(payload))] else []
  {
  }
}
