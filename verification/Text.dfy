/**
 Scanning and decimal text, shared by the URI parser, the address text and the
 stream framing.
 */
module Text {

  /** Length of the longest prefix of s that has no element of stops. */
  function Span<T(==)>(s: seq<T>, stops: set<T>): (n: nat)
    ensures n <= |s|
    ensures n < |s| ==> s[n] in stops
  {
    if s == [] || s[0] in stops then 0 else 1 + Span(s[1..], stops)
  }

  lemma {:induction false} SpanIsFree<T>(s: seq<T>, stops: set<T>)
    ensures FreeOf(s[..Span(s, stops)], stops)
  {
    if s != [] && s[0] !in stops {
      SpanIsFree(s[1..], stops);
      var n := Span(s[1..], stops);
      assert s[..n + 1] == [s[0]] + s[1..][..n];
    }
  }

  /** No element of s is in stops. */
  predicate FreeOf<T(==)>(s: seq<T>, stops: set<T>) {
    forall k :: 0 <= k < |s| ==> s[k] !in stops
  }

  /** The scan stops inside s when s has a stop. */
  lemma SpanStops<T>(s: seq<T>, c: T, stops: set<T>)
    requires c in s && c in stops
    ensures Span(s, stops) < |s|
  {
    SpanIsFree(s, stops);
    assert s[..|s|] == s;
  }

  /** A stop-free prefix followed by nothing, or by a stop, is exactly what Span finds. */
  lemma {:induction false} SpanOfPrefix<T>(s: seq<T>, rest: seq<T>, stops: set<T>)
    requires FreeOf(s, stops)
    requires rest == [] || rest[0] in stops
    ensures Span(s + rest, stops) == |s|
    ensures (s + rest)[..|s|] == s && (s + rest)[|s|..] == rest
  {
    if s == [] {
      assert s + rest == rest;
    } else {
      SpanOfPrefix(s[1..], rest, stops);
      assert (s + rest)[1..] == s[1..] + rest;
    }
  }

  lemma SpanOfAll<T>(s: seq<T>, stops: set<T>)
    requires FreeOf(s, stops)
    ensures Span(s, stops) == |s|
  {
    SpanOfPrefix(s, [], stops);
    assert s + [] == s;
  }

  /** What a scan from start that stops at end has established. */
  lemma SpanOfScan<T>(s: seq<T>, start: nat, end: nat, stops: set<T>)
    requires start <= end <= |s|
    requires forall k :: start <= k < end ==> s[k] !in stops
    requires end == |s| || s[end] in stops
    ensures Span(s[start..], stops) == end - start
  {
    SpanOfPrefix(s[start..end], s[end..], stops);
    assert s[start..end] + s[end..] == s[start..];
  }

  lemma Assoc<T>(a: seq<T>, b: seq<T>, c: seq<T>)
    ensures a + (b + c) == a + b + c
  {
  }

  lemma CutInThree<T>(s: seq<T>, n: nat, m: nat)
    requires n + m <= |s|
    ensures s == s[..n] + s[n..][..m] + s[n..][m..]
  {
  }

  lemma CutAround<T>(s: seq<T>, n: nat)
    requires n < |s|
    ensures s == s[..n] + ([s[n]] + s[n + 1..])
  {
  }

  predicate IsDigit(c: char) {
    '0' <= c <= '9'
  }

  predicate AllDigits(s: string) {
    forall k :: 0 <= k < |s| ==> IsDigit(s[k])
  }

  function DigitChar(d: nat): (c: char)
    requires d < 10
    ensures IsDigit(c) && DigitValue(c) == d
  {
    '0' + d as char
  }

  function DigitValue(c: char): (d: nat)
    requires IsDigit(c)
    ensures d < 10
  {
    c as nat - '0' as nat
  }

  /** The number a run of decimal digits denotes. */
  function DecimalValue(s: string): nat
    requires AllDigits(s)
  {
    if s == "" then 0 else 10 * DecimalValue(s[..|s| - 1]) + DigitValue(s[|s| - 1])
  }

  /** The decimal text of n, as std::to_string and the %u conversion write it. */
  function DecimalText(n: nat): (s: string)
    ensures s != "" && AllDigits(s)
  {
    if n < 10 then [DigitChar(n)] else DecimalText(n / 10) + [DigitChar(n % 10)]
  }

  /** A digit prints as itself, and a greater number as the number without its last digit, and that digit. */
  lemma DecimalTextIs(a: nat, d: nat)
    requires d < 10
    ensures DecimalText(d) == ["0123456789"[d]]
    ensures a > 0 ==> DecimalText(10 * a + d) == DecimalText(a) + ["0123456789"[d]]
  {
    DigitsAre(d);
    assert (10 * a + d) / 10 == a && (10 * a + d) % 10 == d;
  }

  lemma DigitsAre(d: nat)
    requires d < 10
    ensures DigitChar(d) == "0123456789"[d]
  {
  }

  lemma {:induction false} DecimalRoundTrip(n: nat)
    ensures DecimalValue(DecimalText(n)) == n
  {
    if n >= 10 {
      DecimalRoundTrip(n / 10);
      assert DecimalText(n)[..|DecimalText(n)| - 1] == DecimalText(n / 10);
    }
  }

  /** Printing never needs more digits than the text a number was read from. */
  lemma {:induction false} DecimalTextIsShortest(s: string)
    requires s != "" && AllDigits(s)
    ensures |DecimalText(DecimalValue(s))| <= |s|
  {
    var front := s[..|s| - 1];
    var v := DecimalValue(s);
    if front != "" {
      DecimalTextIsShortest(front);
      assert v / 10 == DecimalValue(front);
    }
  }

  /** Printing a number gives back the digits it was read from exactly when they have no leading zero. */
  lemma {:induction false} DecimalTextIsSameIff(s: string)
    requires s != "" && AllDigits(s)
    ensures DecimalText(DecimalValue(s)) == s <==> |s| == 1 || s[0] != '0'
    ensures s[0] != '0' ==> DecimalValue(s) > 0
  {
    var front := s[..|s| - 1];
    assert s == front + [s[|s| - 1]];
    var v := DecimalValue(s);
    if front != "" {
      DecimalTextIsSameIff(front);
      DecimalTextIsShortest(front);
      assert v / 10 == DecimalValue(front) && v % 10 == DigitValue(s[|s| - 1]);
      SameDigitIff(s[|s| - 1]);
      if v >= 10 {
        SameFront(DecimalText(v / 10), front, DigitChar(v % 10));
      }
    } else {
      assert DecimalValue(front) == 0;
      SameDigitIff(s[0]);
    }
  }

  lemma SameDigitIff(c: char)
    requires IsDigit(c)
    ensures DigitChar(DigitValue(c)) == c
    ensures DigitValue(c) == 0 <==> c == '0'
  {
  }

  lemma SameFront(a: string, b: string, c: char)
    ensures a + [c] == b + [c] <==> a == b
  {
    assert (a + [c])[..|a|] == a && (b + [c])[..|b|] == b;
  }

  /** A byte has at most three digits. */
  lemma DecimalTextOfByte(n: nat)
    requires n < 256
    ensures |DecimalText(n)| <= 3
  {
    var tens := n / 10;
    assert tens < 26 && tens / 10 < 3;
    assert |DecimalText(tens / 10)| == 1;
    assert |DecimalText(tens)| <= 2;
  }
}
