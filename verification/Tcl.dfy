/**
 The Tcl server connection: messages ended by 0x1A are cut out of what the
 socket delivers, and trace messages carry ITM bytes as hexadecimal text.
 */
module Tcl {
  import opened Machine
  import opened Wrappers
  import opened Text
  import opened Itm

  const TERMINATOR: Byte := 0x1A

  // ---- Framing ----

  datatype Framed = Framed(messages: seq<seq<Byte>>, rest: seq<Byte>)

  /** The complete messages at the front of a buffer and what is left of it. */
  function Frames(buffer: seq<Byte>): Framed
    decreases |buffer|
  {
    var n := Span(buffer, {TERMINATOR});
    if n == |buffer| then Framed([], buffer)
    else
      var others := Frames(buffer[n + 1..]);
      Framed([buffer[..n]] + others.messages, others.rest)
  }

  lemma {:induction false} SpanOfConcat(a: seq<Byte>, b: seq<Byte>)
    requires Span(a, {TERMINATOR}) < |a|
    ensures Span(a + b, {TERMINATOR}) == Span(a, {TERMINATOR})
  {
    var n := Span(a, {TERMINATOR});
    SpanIsFree(a, {TERMINATOR});
    SpanOfPrefix(a[..n], a[n..] + b, {TERMINATOR});
    assert a[..n] + (a[n..] + b) == a + b;
  }

  /** Messages do not depend on where the byte stream is cut. */
  lemma {:induction false} FramesConcat(a: seq<Byte>, b: seq<Byte>)
    ensures var first := Frames(a);
            var second := Frames(first.rest + b);
            Frames(a + b) == Framed(first.messages + second.messages, second.rest)
    decreases |a|
  {
    var n := Span(a, {TERMINATOR});
    if n == |a| {
      assert [] + Frames(a + b).messages == Frames(a + b).messages;
    } else {
      SpanOfConcat(a, b);
      FramesConcat(a[n + 1..], b);
      assert (a + b)[n + 1..] == a[n + 1..] + b && (a + b)[..n] == a[..n];
      var first := Frames(a[n + 1..]);
      Assoc([a[..n]], first.messages, Frames(first.rest + b).messages);
    }
  }

  /** The message sequence and the remaining buffer of a sequence of receptions. */
  function FramesOfChunks(buffer: seq<Byte>, chunks: seq<seq<Byte>>): Framed
    decreases |chunks|
  {
    if chunks == [] then Framed([], buffer)
    else
      var first := Frames(buffer + chunks[0]);
      var others := FramesOfChunks(first.rest, chunks[1..]);
      Framed(first.messages + others.messages, others.rest)
  }

  lemma {:induction false} FramesRest(buffer: seq<Byte>)
    ensures Frames(Frames(buffer).rest) == Framed([], Frames(buffer).rest)
    decreases |buffer|
  {
    var n := Span(buffer, {TERMINATOR});
    if n < |buffer| {
      FramesRest(buffer[n + 1..]);
    }
  }

  /** However the socket splits the byte stream, the same messages come out. */
  lemma {:induction false} FramingIgnoresChunks(buffer: seq<Byte>, chunks: seq<seq<Byte>>)
    requires chunks != []
    ensures FramesOfChunks(buffer, chunks) == Frames(buffer + Flatten(chunks))
    decreases |chunks|
  {
    var first := Frames(buffer + chunks[0]);
    Assoc(buffer, chunks[0], Flatten(chunks[1..]));
    FramesConcat(buffer + chunks[0], Flatten(chunks[1..]));
    if |chunks| == 1 {
      FramesRest(buffer + chunks[0]);
      assert first.rest + [] == first.rest;
    } else {
      FramingIgnoresChunks(first.rest, chunks[1..]);
    }
  }

  // ---- Hexadecimal conversion through one big integer ----

  predicate IsHexDigit(c: Byte) {
    0x30 <= c <= 0x39 || 0x41 <= c <= 0x46 || 0x61 <= c <= 0x66
  }

  function HexDigit(c: Byte): (d: nat)
    requires IsHexDigit(c)
    ensures d < 16
  {
    if c <= 0x39 then c as nat - 0x30 else if c <= 0x46 then c as nat - 0x37 else c as nat - 0x57
  }

  ghost predicate AllHex(s: seq<Byte>) {
    forall k :: 0 <= k < |s| ==> IsHexDigit(s[k])
  }

  /** White space as Python's int() strips it. */
  predicate IsSpace(c: Byte) {
    c == 0x20 || 0x09 <= c <= 0x0D
  }

  function StripLeft(s: seq<Byte>): (r: seq<Byte>)
    ensures |r| <= |s|
  {
    if s != [] && IsSpace(s[0]) then StripLeft(s[1..]) else s
  }

  function StripRight(s: seq<Byte>): (r: seq<Byte>)
    ensures |r| <= |s|
  {
    if s != [] && IsSpace(s[|s| - 1]) then StripRight(s[..|s| - 1]) else s
  }

  /** Digits, with single underscores allowed between them: the number they denote. */
  function DigitRun(s: seq<Byte>): Option<nat> {
    if s == [] || !IsHexDigit(s[|s| - 1]) then None
    else
      var last := HexDigit(s[|s| - 1]);
      var front := s[..|s| - 1];
      if front == [] then Some(last)
      else
        var high := if front[|front| - 1] == 0x5F then front[..|front| - 1] else front;
        match DigitRun(high)
        case None => None
        case Some(v) => Some(16 * v + last)
  }

  /** An optional "0x", after which one underscore is allowed. */
  function Unprefixed(s: seq<Byte>): seq<Byte> {
    if |s| >= 2 && s[0] == 0x30 && (s[1] == 0x78 || s[1] == 0x58) then
      if |s| >= 3 && s[2] == 0x5F then s[3..] else s[2..]
    else s
  }

  /** int(s, 16); None stands for the ValueError. */
  function HexInt(s: seq<Byte>): Option<int> {
    var t := StripRight(StripLeft(s));
    var signed := t != [] && (t[0] == 0x2B || t[0] == 0x2D);
    match DigitRun(Unprefixed(if signed then t[1..] else t))
    case None => None
    case Some(v) =>
      var value: int := v;
      Some(if signed && t[0] == 0x2D then -value else value)
  }

  /** The n low bytes of v, most significant first. */
  function LowBytes(v: nat, n: nat): (r: seq<Byte>)
    ensures |r| == n
  {
    if n == 0 then [] else LowBytes(v / 256, n - 1) + [(v % 256) as Byte]
  }

  function Pow256(n: nat): (p: nat)
    ensures p > 0
  {
    if n == 0 then 1 else 256 * Pow256(n - 1)
  }

  /** v.to_bytes(n, byteorder='big'); None stands for the OverflowError. */
  function ToBytes(v: int, n: nat): Option<seq<Byte>> {
    if 0 <= v < Pow256(n) then Some(LowBytes(v, n)) else None
  }

  /** Hexadecimal text decoded byte by byte. */
  function HexPairs(s: seq<Byte>): seq<Byte>
    requires AllHex(s) && |s| % 2 == 0
  {
    if s == [] then []
    else
      var n := |s| - 2;
      HexPairs(s[..n]) + [(16 * HexDigit(s[n]) + HexDigit(s[n + 1])) as Byte]
  }

  function HexValue(s: seq<Byte>): nat
    requires AllHex(s)
  {
    if s == [] then 0 else 16 * HexValue(s[..|s| - 1]) + HexDigit(s[|s| - 1])
  }

  /** Plain digits are read as the number they denote. */
  lemma HexIntOfDigits(s: seq<Byte>)
    requires s != [] && AllHex(s)
    ensures HexInt(s) == Some(HexValue(s))
  {
    assert IsHexDigit(s[0]) && IsHexDigit(s[|s| - 1]);
    assert |s| >= 2 ==> IsHexDigit(s[1]);
    DigitRunOfDigits(s);
  }

  lemma {:induction false} DigitRunOfDigits(s: seq<Byte>)
    requires s != [] && AllHex(s)
    ensures DigitRun(s) == Some(HexValue(s))
  {
    var front := s[..|s| - 1];
    if front != [] {
      assert IsHexDigit(front[|front| - 1]);
      DigitRunOfDigits(front);
    }
  }

  lemma HexValueOfPair(s: seq<Byte>)
    requires AllHex(s) && |s| >= 2
    ensures var n := |s| - 2;
            HexValue(s) == 256 * HexValue(s[..n]) + 16 * HexDigit(s[n]) + HexDigit(s[n + 1])
  {
    var n := |s| - 2;
    assert s[..n + 1][..n] == s[..n];
  }

  lemma LowBytesOfPair(v: nat, pair: nat, n: nat)
    requires pair < 256 && n > 0
    ensures LowBytes(256 * v + pair, n) == LowBytes(v, n - 1) + [pair as Byte]
  {
    assert (256 * v + pair) / 256 == v && (256 * v + pair) % 256 == pair;
  }

  lemma {:induction false} HexValueBound(s: seq<Byte>)
    requires AllHex(s) && |s| % 2 == 0
    ensures HexValue(s) < Pow256(|s| / 2)
  {
    hide HexValue, HexDigit;
    if s == [] {
      HexValueOfNone();
    } else {
      HexValueBound(s[..|s| - 2]);
      HexValueOfPair(s);
      assert |s[..|s| - 2]| / 2 == |s| / 2 - 1;
    }
  }

  lemma HexValueOfNone()
    ensures HexValue([]) == 0
  {
  }

  lemma {:induction false} PairsAreLowBytes(s: seq<Byte>)
    requires AllHex(s) && |s| % 2 == 0
    ensures LowBytes(HexValue(s), |s| / 2) == HexPairs(s)
  {
    hide HexValue, LowBytes, HexDigit, HexPairs;
    if s == [] {
      HexValueOfNone();
      NoBytes(0);
    } else {
      var n := |s| - 2;
      PairsAreLowBytes(s[..n]);
      HexValueOfPair(s);
      HexPairsOfPair(s);
      LowBytesOfPair(HexValue(s[..n]), 16 * HexDigit(s[n]) + HexDigit(s[n + 1]), |s| / 2);
      assert |s| / 2 - 1 == |s[..n]| / 2;
    }
  }

  lemma HexPairsOfPair(s: seq<Byte>)
    requires AllHex(s) && |s| % 2 == 0 && s != []
    ensures var n := |s| - 2;
            HexPairs(s) == HexPairs(s[..n]) + [(16 * HexDigit(s[n]) + HexDigit(s[n + 1])) as Byte]
  {
    hide HexDigit;
  }

  lemma NoBytes(v: nat)
    ensures LowBytes(v, 0) == [] && HexPairs([]) == []
  {
  }

  /** Every non-empty even-length run of hex digits converts to its bytes, leading zero bytes included. */
  lemma HexConversionIsBytewise(s: seq<Byte>)
    requires s != [] && AllHex(s) && |s| % 2 == 0
    ensures HexInt(s).Some? && ToBytes(HexInt(s).value, |s| / 2) == Some(HexPairs(s))
  {
    HexIntOfDigits(s);
    HexValueBound(s);
    PairsAreLowBytes(s);
  }

  /** An odd number of digits is accepted exactly when the first is zero, which is then dropped. */
  lemma OddHexConversionIff(s: seq<Byte>)
    requires AllHex(s) && |s| % 2 == 1
    ensures HexInt(s).Some?
    ensures ToBytes(HexInt(s).value, |s| / 2) == if s[0] == 0x30 then Some(HexPairs(s[1..])) else None
  {
    hide HexInt, HexValue, Pow256, LowBytes, HexPairs;
    HexIntOfDigits(s);
    HexValueOfHead(s);
    var t := s[1..];
    assert |t| / 2 == |s| / 2;
    HexValueBound(t);
    PairsAreLowBytes(t);
    LeadingDigit(HexDigit(s[0]), Pow256(|s| / 2), HexValue(t));
    assert HexDigit(s[0]) == 0 <==> s[0] == 0x30;
  }

  lemma LeadingDigit(d: nat, p: nat, v: nat)
    requires v < p
    ensures d * p + v < p <==> d == 0
    ensures d == 0 ==> d * p + v == v
  {
    if d > 0 {
      assert d * p >= p;
    }
  }

  lemma HexValueOfOne(s: seq<Byte>)
    requires AllHex(s) && |s| == 1
    ensures HexValue(s) == HexDigit(s[0]) && HexValue(s[1..]) == 0
  {
  }

  lemma {:induction false} HexValueOfHead(s: seq<Byte>)
    requires AllHex(s) && |s| % 2 == 1
    ensures HexValue(s) == HexDigit(s[0]) * Pow256(|s| / 2) + HexValue(s[1..])
  {
    hide HexValue, HexDigit;
    if |s| == 1 {
      assert s[..0] == [] && s[1..] == [];
      HexValueOfOne(s);
    } else {
      var n := |s| - 2;
      var front, tail := s[..n], s[1..];
      HexValueOfHead(front);
      HexValueOfPair(s);
      HexValueOfPair(tail);
      assert front[1..] == tail[..n - 1];
      assert |front| / 2 == |s| / 2 - 1;
      ShiftHead(HexDigit(s[0]), Pow256(n / 2), HexValue(front[1..]), 16 * HexDigit(s[n]) + HexDigit(s[n + 1]));
    }
  }

  lemma ShiftHead(d: nat, p: nat, v: nat, x: nat)
    ensures 256 * (d * p + v) + x == d * (256 * p) + (256 * v + x)
  {
  }

  // ---- What a hexadecimal text means, digit by digit ----

  /** Digit k has the value k, in either case, and no other byte is a digit. */
  lemma HexDigitsAre(c: Byte, d: nat)
    requires d < 16
    ensures IsHexDigit(c) && HexDigit(c) == d
            <==> if d < 10 then c as nat == '0' as nat + d
                 else c as nat == 'a' as nat + d - 10 || c as nat == 'A' as nat + d - 10
  {
  }

  /** The k-th byte is the k-th pair of digits, the high digit first. */
  lemma {:induction false} HexPairAt(s: seq<Byte>, k: nat)
    requires AllHex(s) && |s| % 2 == 0 && 2 * k + 1 < |s|
    ensures |HexPairs(s)| == |s| / 2
    ensures HexPairs(s)[k] as nat == 16 * HexDigit(s[2 * k]) + HexDigit(s[2 * k + 1])
  {
    hide HexDigit, HexPairs;
    var n := |s| - 2;
    HexPairsOfPair(s);
    ByteOfPair(HexDigit(s[n]), HexDigit(s[n + 1]));
    if n > 0 {
      HexPairAt(s[..n], if 2 * k + 1 < n then k else 0);
    } else {
      NoBytes(0);
      assert s[..n] == [];
    }
  }

  lemma ByteOfPair(high: nat, low: nat)
    requires high < 16 && low < 16
    ensures (16 * high + low) as Byte as nat == 16 * high + low
  {
  }

  function Minus(n: nat): int {
    0 - n
  }

  /** White space around the digits, either sign and a prefix "0x" or "0X" are admitted. */
  lemma HexIntAdmits(before: seq<Byte>, digits: seq<Byte>, behind: seq<Byte>)
    requires digits != [] && AllHex(digits)
    requires forall k :: 0 <= k < |before| ==> IsSpace(before[k])
    requires forall k :: 0 <= k < |behind| ==> IsSpace(behind[k])
    ensures HexInt(before + digits + behind) == Some(HexValue(digits))
    ensures HexInt(before + ([0x2B] + digits) + behind) == Some(HexValue(digits))
    ensures HexInt(before + ([0x2D] + digits) + behind) == Some(Minus(HexValue(digits)))
    ensures HexInt(before + ([0x30, 0x78] + digits) + behind) == Some(HexValue(digits))
    ensures HexInt(before + ([0x30, 0x58] + digits) + behind) == Some(HexValue(digits))
  {
    hide HexInt, HexValue;
    HexIntOfToken(before, digits, behind, digits, false, digits);
    HexIntOfToken(before, [0x2B] + digits, behind, digits, true, digits);
    HexIntOfToken(before, [0x2D] + digits, behind, digits, true, digits);
    HexIntOfToken(before, [0x30, 0x78] + digits, behind, [0x30, 0x78] + digits, false, digits);
    HexIntOfToken(before, [0x30, 0x58] + digits, behind, [0x30, 0x58] + digits, false, digits);
  }

  lemma HexIntOfToken(before: seq<Byte>, token: seq<Byte>, behind: seq<Byte>, number: seq<Byte>, signed: bool,
                      digits: seq<Byte>)
    requires digits != [] && AllHex(digits)
    requires number == digits || number == [0x30, 0x78] + digits || number == [0x30, 0x58] + digits
    requires if signed then token == [0x2B] + number || token == [0x2D] + number else token == number
    requires forall k :: 0 <= k < |before| ==> IsSpace(before[k])
    requires forall k :: 0 <= k < |behind| ==> IsSpace(behind[k])
    ensures HexInt(before + token + behind)
            == Some(if signed && token[0] == 0x2D then Minus(HexValue(digits)) else HexValue(digits))
  {
    hide StripLeft, StripRight, DigitRun, HexValue;
    assert IsHexDigit(digits[0]) && IsHexDigit(digits[|digits| - 1]);
    assert |digits| > 1 ==> IsHexDigit(digits[1]);
    assert token[|token| - 1] == digits[|digits| - 1];
    Stripped(before, token, behind);
    DigitRunOfDigits(digits);
    UnprefixedNumber(number, digits);
    assert signed ==> token[1..] == number;
  }

  lemma UnprefixedNumber(number: seq<Byte>, digits: seq<Byte>)
    requires digits != [] && AllHex(digits)
    requires number == digits || number == [0x30, 0x78] + digits || number == [0x30, 0x58] + digits
    ensures Unprefixed(number) == digits
  {
    assert IsHexDigit(digits[0]) && (|digits| > 1 ==> IsHexDigit(digits[1]));
    if number != digits {
      assert number[2..] == digits && number[2] == digits[0];
    }
  }

  lemma {:induction false} Stripped(before: seq<Byte>, token: seq<Byte>, behind: seq<Byte>)
    requires token != [] && !IsSpace(token[0]) && !IsSpace(token[|token| - 1])
    requires forall k :: 0 <= k < |before| ==> IsSpace(before[k])
    requires forall k :: 0 <= k < |behind| ==> IsSpace(behind[k])
    ensures StripRight(StripLeft(before + token + behind)) == token
    decreases |before| + |behind|
  {
    var s := before + token + behind;
    if before != [] {
      assert s[1..] == before[1..] + token + behind && s[0] == before[0];
      Stripped(before[1..], token, behind);
    } else if behind != [] {
      var front := behind[..|behind| - 1];
      assert s[0] == token[0] && StripLeft(s) == s;
      assert s[|s| - 1] == behind[|behind| - 1] && s[..|s| - 1] == before + token + front;
      assert (before + token + front)[0] == token[0];
      Stripped(before, token, front);
    } else {
      assert s == token;
    }
  }

  /** One underscore may stand between two digits. */
  lemma UnderscoreIsAdmitted(a: seq<Byte>, b: Byte)
    requires a != [] && AllHex(a) && IsHexDigit(b)
    ensures DigitRun(a + [0x5F] + [b]) == DigitRun(a + [b]) == Some(HexValue(a + [b]))
  {
    hide HexDigit;
    var s := a + [0x5F] + [b];
    assert s[..|s| - 1] == a + [0x5F] && (a + [0x5F])[..|a|] == a;
    assert AllHex(a + [b]);
    DigitRunOfDigits(a + [b]);
    DigitRunOfDigits(a);
    assert (a + [b])[..|a|] == a;
  }

  // ---- Trace messages ----

  const PREFIX: seq<Byte> := Codes("type target_trace data ")

  predicate IsTrace(line: seq<Byte>) {
    PREFIX <= line && |line| >= 2 && line[|line| - 2] == 0x0D && line[|line| - 1] == 0x0A
  }

  /** What handling a message comes to: nothing, ITM bytes, or an exception that ends the program. */
  datatype Handled = Ignored | Trace(bytes: seq<Byte>) | Raised

  function ParseTcl(line: seq<Byte>): Handled {
    if !IsTrace(line) then Ignored
    else
      var hex := line[23..|line| - 2];
      match HexInt(hex)
      case None => Raised
      case Some(v) =>
        match ToBytes(v, |hex| / 2)
        case None => Raised
        case Some(bytes) => Trace(bytes)
  }

  // ---- From the socket to the streams ----

  /** What messages come to: the calls made, the ITM bytes retained, and whether an exception ended the program. */
  datatype Session = Session(calls: seq<Call>, itm: seq<Byte>, raised: bool)

  function HandleAll(itm: seq<Byte>, messages: seq<seq<Byte>>, known: set<nat>): Session
    decreases |messages|
  {
    if messages == [] then Session([], itm, false)
    else
      match ParseTcl(messages[0])
      case Ignored => HandleAll(itm, messages[1..], known)
      case Raised => Session([], itm, true)
      case Trace(bytes) =>
        var d := Decode(itm + bytes, known);
        var others := HandleAll(d.rest, messages[1..], known);
        Session(d.calls + others.calls, others.itm, others.raised)
  }

  /** One session after another; an exception leaves no second one. */
  function Then(first: Session, second: Session): Session {
    if first.raised then first else Session(first.calls + second.calls, second.itm, second.raised)
  }

  lemma {:induction false} HandleConcat(itm: seq<Byte>, a: seq<seq<Byte>>, b: seq<seq<Byte>>, known: set<nat>)
    ensures HandleAll(itm, a + b, known)
            == Then(HandleAll(itm, a, known), HandleAll(HandleAll(itm, a, known).itm, b, known))
    decreases |a|
  {
    hide ParseTcl, Decode;
    if a == [] {
      assert a + b == b;
      assert [] + HandleAll(itm, b, known).calls == HandleAll(itm, b, known).calls;
    } else {
      assert (a + b)[1..] == a[1..] + b;
      match ParseTcl(a[0])
      case Ignored => HandleConcat(itm, a[1..], b, known);
      case Raised =>
      case Trace(bytes) =>
        var d := Decode(itm + bytes, known);
        HandleConcat(d.rest, a[1..], b, known);
        var first := HandleAll(d.rest, a[1..], known);
        Assoc(d.calls, first.calls, HandleAll(first.itm, b, known).calls);
    }
  }

  /** The session of a sequence of receptions. */
  function Receive(buffer: seq<Byte>, itm: seq<Byte>, chunks: seq<seq<Byte>>, known: set<nat>): Session
    decreases |chunks|
  {
    if chunks == [] then Session([], itm, false)
    else
      var framed := Frames(buffer + chunks[0]);
      var first := HandleAll(itm, framed.messages, known);
      Then(first, Receive(framed.rest, first.itm, chunks[1..], known))
  }

  /** End to end: however the socket splits the byte stream, the streams get the same
      calls in the same order, and the program ends with an exception or not, as when
      all bytes arrive at once. */
  lemma {:induction false} ReceptionIgnoresChunks(buffer: seq<Byte>, itm: seq<Byte>, chunks: seq<seq<Byte>>,
                                                  known: set<nat>)
    requires Frames(buffer).messages == []
    ensures Receive(buffer, itm, chunks, known) == HandleAll(itm, Frames(buffer + Flatten(chunks)).messages, known)
    decreases |chunks|
  {
    hide Frames, HandleAll;
    if chunks == [] {
      assert buffer + [] == buffer;
      HandleNothing(itm, known);
    } else {
      var all := buffer + chunks[0];
      var tail := Flatten(chunks[1..]);
      var framed := Frames(all);
      var first := HandleAll(itm, framed.messages, known);
      FramesRest(all);
      ReceptionIgnoresChunks(framed.rest, first.itm, chunks[1..], known);
      Assoc(buffer, chunks[0], tail);
      FramesConcat(all, tail);
      HandleConcat(itm, framed.messages, Frames(framed.rest + tail).messages, known);
    }
  }

  lemma HandleNothing(itm: seq<Byte>, known: set<nat>)
    ensures HandleAll(itm, [], known) == Session([], itm, false)
  {
  }

  /** The ITM bytes that messages carry. */
  function TraceBytes(messages: seq<seq<Byte>>): seq<Byte>
    decreases |messages|
  {
    if messages == [] then []
    else (match ParseTcl(messages[0]) case Trace(bytes) => bytes case _ => []) + TraceBytes(messages[1..])
  }

  /** Where the trace bytes are cut into messages does not matter either. */
  lemma {:induction false} MessagesAreDecoded(itm: seq<Byte>, messages: seq<seq<Byte>>, known: set<nat>)
    requires Decode(itm, known) == Decoded([], itm)
    requires !HandleAll(itm, messages, known).raised
    ensures var d := Decode(itm + TraceBytes(messages), known);
            HandleAll(itm, messages, known) == Session(d.calls, d.rest, false)
    decreases |messages|
  {
    hide ParseTcl, Decode;
    if messages == [] {
      assert itm + [] == itm;
    } else {
      var tail := TraceBytes(messages[1..]);
      match ParseTcl(messages[0])
      case Ignored =>
        assert TraceBytes(messages) == tail;
        MessagesAreDecoded(itm, messages[1..], known);
      case Trace(bytes) =>
        var d := Decode(itm + bytes, known);
        RetainedIsStable(itm + bytes, known);
        MessagesAreDecoded(d.rest, messages[1..], known);
        Assoc(itm, bytes, tail);
        DecodeConcat(itm + bytes, tail, known);
    }
  }

  // ---- What the trace server sends ----

  /** "0123456789abcdef" */
  const HEX_DIGITS: seq<Byte> := [
    0x30, 0x31, 0x32, 0x33, 0x34, 0x35, 0x36, 0x37, 0x38, 0x39, 0x61, 0x62, 0x63, 0x64, 0x65, 0x66]

  function HexChar(d: nat): (c: Byte)
    requires d < 16
    ensures IsHexDigit(c) && HexDigit(c) == d
  {
    HEX_DIGITS[d]
  }

  function HexText(bytes: seq<Byte>): (s: seq<Byte>)
    ensures |s| == 2 * |bytes| && AllHex(s)
  {
    if bytes == [] then []
    else
      var n := |bytes| - 1;
      HexText(bytes[..n]) + [HexChar(bytes[n] as nat / 16), HexChar(bytes[n] as nat % 16)]
  }

  /** A message of the trace server, without its terminator. */
  function TraceLine(bytes: seq<Byte>): seq<Byte> {
    PREFIX + HexText(bytes) + [0x0D, 0x0A]
  }

  /** Exactly the messages that start with the prefix and end with carriage return and newline are looked at. */
  lemma TraceIff(line: seq<Byte>)
    ensures ParseTcl(line) != Ignored
            <==> |line| >= 25 && line[..23] == PREFIX
                 && line[|line| - 2] as char == '\r' && line[|line| - 1] as char == '\n'
  {
    hide HexInt, ToBytes;
    if PREFIX <= line && |line| < 25 {
      assert line[22] == PREFIX[22] && (|line| == 24 ==> line[22] == PREFIX[22]);
    }
  }

  /** A minus sign in front of a number that is not zero raises. */
  lemma NegativeRaises(digits: seq<Byte>)
    requires digits != [] && AllHex(digits) && HexValue(digits) > 0
    ensures ParseTcl(PREFIX + ([0x2D] + digits) + [0x0D, 0x0A]) == Raised
  {
    hide HexInt, HexValue;
    var line, hex := PREFIX + ([0x2D] + digits) + [0x0D, 0x0A], [0x2D] + digits;
    assert line[..23] == PREFIX && line[23..|line| - 2] == hex;
    HexIntAdmits([], digits, []);
    assert [] + hex + [] == hex;
  }

  /** Messages with their terminators. */
  function Wire(messages: seq<seq<Byte>>): seq<Byte> {
    if messages == [] then [] else messages[0] + [TERMINATOR] + Wire(messages[1..])
  }

  function TraceLines(groups: seq<seq<Byte>>): (lines: seq<seq<Byte>>)
    ensures |lines| == |groups|
  {
    if groups == [] then [] else [TraceLine(groups[0])] + TraceLines(groups[1..])
  }

  lemma OnePair(b: Byte)
    ensures 16 * HexDigit(HexChar(b as nat / 16)) + HexDigit(HexChar(b as nat % 16)) == b as nat
  {
    hide HexDigit, HexChar;
    var v := b as nat;
    assert 16 * (v / 16) + v % 16 == v;
  }

  lemma HexTextOfLast(bytes: seq<Byte>)
    requires bytes != []
    ensures var n := |bytes| - 1;
            var s := HexText(bytes);
            && s[..2 * n] == HexText(bytes[..n])
            && s[2 * n] == HexChar(bytes[n] as nat / 16) && s[2 * n + 1] == HexChar(bytes[n] as nat % 16)
  {
    hide HexDigit, HexChar, IsHexDigit;
  }

  lemma {:induction false} PairsOfHexText(bytes: seq<Byte>)
    ensures HexPairs(HexText(bytes)) == bytes
  {
    hide HexDigit, HexChar, IsHexDigit, HexPairs, HexText;
    if bytes == [] {
      NoBytes(0);
    } else {
      var n := |bytes| - 1;
      var s := HexText(bytes);
      PairsOfHexText(bytes[..n]);
      HexTextOfLast(bytes);
      HexPairsOfPair(s);
      OnePair(bytes[n]);
      assert bytes == bytes[..n] + [bytes[n]];
    }
  }

  lemma ParseOfTraceLine(bytes: seq<Byte>)
    requires bytes != []
    ensures ParseTcl(TraceLine(bytes)) == Trace(bytes)
  {
    hide HexText, HexPairs, HexInt, ToBytes;
    var hex := HexText(bytes);
    var line := TraceLine(bytes);
    assert line[..23] == PREFIX;
    assert line[23..|line| - 2] == hex;
    assert |hex| / 2 == |bytes|;
    PairsOfHexText(bytes);
    HexConversionIsBytewise(hex);
  }

  lemma TraceLineHasNoTerminator(bytes: seq<Byte>)
    ensures FreeOf(TraceLine(bytes), {TERMINATOR})
  {
    var hex := HexText(bytes);
    assert FreeOf(PREFIX, {TERMINATOR});
    forall k | 0 <= k < |hex|
      ensures hex[k] != TERMINATOR
    {
      assert IsHexDigit(hex[k]);
    }
  }

  /** Messages without the terminator are framed back. */
  lemma {:induction false} FramesOfWire(messages: seq<seq<Byte>>)
    requires forall m :: m in messages ==> FreeOf(m, {TERMINATOR})
    ensures Frames(Wire(messages)) == Framed(messages, [])
    decreases |messages|
  {
    hide Span, Frames, FreeOf;
    if messages == [] {
      NoFrames();
    } else {
      var m := messages[0];
      var tail := Wire(messages[1..]);
      FramesOfWire(messages[1..]);
      FrameInFront(m, tail);
      assert Wire(messages) == m + [TERMINATOR] + tail;
      assert [m] + messages[1..] == messages;
    }
  }

  lemma FrameInFront(m: seq<Byte>, tail: seq<Byte>)
    requires FreeOf(m, {TERMINATOR})
    ensures Frames(m + [TERMINATOR] + tail) == Framed([m] + Frames(tail).messages, Frames(tail).rest)
  {
    hide Span;
    var wire := m + [TERMINATOR] + tail;
    SpanOfPrefix(m, [TERMINATOR] + tail, {TERMINATOR});
    assert wire == m + ([TERMINATOR] + tail);
    assert wire[|m| + 1..] == tail;
  }

  lemma {:induction false} LinesCarryGroups(groups: seq<seq<Byte>>, itm: seq<Byte>, known: set<nat>)
    requires forall g :: g in groups ==> g != []
    ensures TraceBytes(TraceLines(groups)) == Flatten(groups)
    ensures !HandleAll(itm, TraceLines(groups), known).raised
    ensures forall m :: m in TraceLines(groups) ==> FreeOf(m, {TERMINATOR})
    decreases |groups|
  {
    hide ParseTcl, TraceLine, FreeOf;
    if groups != [] {
      assert groups[0] in groups;
      ParseOfTraceLine(groups[0]);
      TraceLineHasNoTerminator(groups[0]);
      assert forall g :: g in groups[1..] ==> g in groups;
      LinesCarryGroups(groups[1..], Decode(itm + groups[0], known).rest, known);
      assert TraceLines(groups)[1..] == TraceLines(groups[1..]);
    }
  }

  /** Packets of one and four bytes, sent in any grouping into trace messages and received
      in any chunks, make exactly their calls. */
  lemma TraceArrives(packets: seq<Packet>, groups: seq<seq<Byte>>, chunks: seq<seq<Byte>>, known: set<nat>)
    requires AllValid(packets) && forall p :: p in packets ==> |p.payload| != 2
    requires Flatten(groups) == Encode(packets) && forall g :: g in groups ==> g != []
    requires Flatten(chunks) == Wire(TraceLines(groups))
    ensures Receive([], [], chunks, known) == Session(CallsOf(packets, known), [], false)
  {
    hide Frames, HandleAll, Wire, TraceBytes, Encode, Decode, Receive, Flatten, FreeOf;
    var lines := TraceLines(groups);
    NoFrames();
    ReceptionIgnoresChunks([], [], chunks, known);
    assert [] + Flatten(chunks) == Flatten(chunks);
    LinesCarryGroups(groups, [], known);
    FramesOfWire(lines);
    DecodeNothing(known);
    MessagesAreDecoded([], lines, known);
    assert [] + TraceBytes(lines) == Encode(packets);
    DecodeOfEncode(packets, known);
  }

  /** The text a device writes to a stream, in packets of one and four bytes among those of other streams,
      grouped into messages at will and received in any chunks, is the text that the stream is given. */
  lemma DeviceTextArrives(packets: seq<Packet>, groups: seq<seq<Byte>>, chunks: seq<seq<Byte>>, known: set<nat>,
                          id: nat, s: string)
    requires AllValid(packets) && forall p :: p in packets ==> |p.payload| != 2
    requires Flatten(groups) == Encode(packets) && forall g :: g in groups ==> g != []
    requires Flatten(chunks) == Wire(TraceLines(groups))
    requires id in known && IsAsciiText(s) && PayloadFor(id, packets) == Codes(s)
    ensures Receive([], [], chunks, known).raised == false
    ensures TextFor(id, Receive([], [], chunks, known).calls) == s
  {
    hide Frames, HandleAll, Wire, TraceBytes, Encode, Decode, Receive, Flatten, FreeOf, Codes;
    TraceArrives(packets, groups, chunks, known);
    DecodeOfEncode(packets, known);
    DeviceTextIsDecoded(packets, known, id, s);
  }

  lemma NoFrames()
    ensures Frames([]) == Framed([], [])
  {
  }
}
