/**
 * An IPv4 address, its dotted-decimal text in the fixed string field, and the
 * assignment from text (src/Address/AddressPrinter.hpp, src/Address/Address.hpp).
 */
module Address {
  import opened Machine
  import opened Text
  import opened Wrappers

  /** LIBSMART_STM32NETX_ADDRESS_STRING_SIZE without IPv6. */
  const STRING_SIZE: nat := 16

  const NO_VERSION: nat := 0
  const VERSION_4: nat := 4

  // The four bytes of an address, most significant first.

  function Byte1(v: Word): Word {
    v >> 24
  }

  function Byte2(v: Word): Word {
    (v >> 16) & 0xFF
  }

  function Byte3(v: Word): Word {
    (v >> 8) & 0xFF
  }

  function Byte4(v: Word): Word {
    v & 0xFF
  }

  /** The four words shifted into place and combined with or. */
  function Combine(a: Word, b: Word, c: Word, d: Word): Word {
    (a << 24) | (b << 16) | (c << 8) | d
  }

  lemma BytesCombine(v: Word)
    ensures Combine(Byte1(v), Byte2(v), Byte3(v), Byte4(v)) == v
  {
  }

  lemma BytesAreSmall(v: Word)
    ensures Byte1(v) < 256 && Byte2(v) < 256 && Byte3(v) < 256 && Byte4(v) < 256
  {
  }

  /** The four words come back as the four bytes exactly when each of them is a byte. */
  lemma BytesOfCombineIff(a: Word, b: Word, c: Word, d: Word)
    ensures
      var v := Combine(a, b, c, d);
      (Byte1(v) == a && Byte2(v) == b && Byte3(v) == c && Byte4(v) == d)
      <==> (a < 256 && b < 256 && c < 256 && d < 256)
  {
  }

  /** The number a word holds. */
  function Number(w: Word): (n: nat)
    ensures n < ULONG_LIMIT
  {
    w as nat
  }

  /** The word the conversion of n stores; it saturates, as strtoul does. */
  function ToWord(n: nat): Word {
    if n < ULONG_LIMIT then n as Word else 0xFFFF_FFFF
  }

  lemma WordRoundTrip(w: Word)
    ensures ToWord(Number(w)) == w
  {
  }

  lemma SmallWord(w: Word)
    requires w < 256
    ensures Number(w) < 256
  {
  }

  /** What %u prints for w. */
  function WordText(w: Word): (s: string)
    ensures s != "" && AllDigits(s)
  {
    DecimalText(Number(w))
  }

  lemma WordTextReads(w: Word)
    ensures ToWord(DecimalValue(WordText(w))) == w
  {
    hide ToWord, DecimalValue, DecimalText;
    DecimalRoundTrip(Number(w));
    WordRoundTrip(w);
  }

  lemma ByteTextLength(w: Word)
    requires w < 256
    ensures |WordText(w)| <= 3
  {
    hide DecimalText;
    SmallWord(w);
    DecimalTextOfByte(Number(w));
  }

  /** The "%u.%u.%u.%u" text of an address. */
  function DottedText(v: Word): string {
    WordText(Byte1(v)) + ("." + (WordText(Byte2(v)) + ("." + (WordText(Byte3(v)) + ("." + WordText(Byte4(v)))))))
  }

  /** The text and its terminator fit the string field. */
  lemma DottedTextFits(v: Word)
    ensures 0 < |DottedText(v)| < STRING_SIZE
  {
    hide Byte1, Byte2, Byte3, Byte4, WordText;
    BytesAreSmall(v);
    ByteTextLength(Byte1(v));
    ByteTextLength(Byte2(v));
    ByteTextLength(Byte3(v));
    ByteTextLength(Byte4(v));
  }

  /** The length of the run of digits at the start of s. */
  function DigitRun(s: string): (n: nat)
    ensures n <= |s| && AllDigits(s[..n])
    ensures n < |s| ==> !IsDigit(s[n])
  {
    if s == "" || !IsDigit(s[0]) then 0 else
    var n := DigitRun(s[1..]);
    assert s[..n + 1] == [s[0]] + s[1..][..n];
    n + 1
  }

  lemma {:induction false} DigitRunOfPrefix(digits: string, rest: string)
    requires AllDigits(digits)
    requires rest == "" || !IsDigit(rest[0])
    ensures DigitRun(digits + rest) == |digits|
    ensures (digits + rest)[..|digits|] == digits && (digits + rest)[|digits|..] == rest
  {
    if digits == "" {
      assert digits + rest == rest;
    } else {
      DigitRunOfPrefix(digits[1..], rest);
      assert (digits + rest)[1..] == digits[1..] + rest;
    }
  }

  /** White space as isspace knows it. */
  predicate IsSpace(c: char) {
    c == ' ' || 9 <= c as nat <= 13
  }

  function SpaceRun(s: string): (n: nat)
    ensures n <= |s|
  {
    if s == "" || !IsSpace(s[0]) then 0 else 1 + SpaceRun(s[1..])
  }

  /** What one %u stores, and how much of the text it takes. */
  datatype Field = Field(word: Word, length: nat)

  /** A minus sign negates, modulo 2 to the 32, a number that fits. */
  function Negated(n: nat): Word {
    if n < ULONG_LIMIT then 0 - ToWord(n) else ToWord(n)
  }

  /** Digits behind a part of that length. */
  function DigitsAt(t: string, taken: nat, negative: bool): (f: Option<Field>)
    ensures f.Some? ==> taken < f.value.length <= taken + |t|
  {
    var n := DigitRun(t);
    if n == 0 then None
    else Some(Field(if negative then Negated(DecimalValue(t[..n])) else ToWord(DecimalValue(t[..n])), taken + n))
  }

  /** A sign if there is one, and digits. */
  function SignedAt(t: string): (f: Option<Field>)
    ensures f.Some? ==> 0 < f.value.length <= |t|
  {
    if t != "" && (t[0] == '-' || t[0] == '+') then DigitsAt(t[1..], 1, t[0] == '-') else DigitsAt(t, 0, false)
  }

  /** The conversion %u: white space, a sign if there is one, and digits. */
  function FieldAt(s: string): (f: Option<Field>)
    ensures f.Some? ==> 0 < f.value.length <= |s|
  {
    var spaces := SpaceRun(s);
    match SignedAt(s[spaces..])
    case None => None
    case Some(f) => Some(Field(f.word, spaces + f.length))
  }

  /** The words that up to `fields` conversions separated by dots store, in order; scanning
      stops at the first conversion or dot that does not match. */
  function Conversions(s: string, fields: nat): (words: seq<Word>)
    ensures |words| <= fields
  {
    if fields == 0 then []
    else
      match FieldAt(s)
      case None => []
      case Some(f) =>
        [f.word] + if f.length < |s| && s[f.length] == '.' then Conversions(s[f.length + 1..], fields - 1) else []
  }

  /** A printed number is converted back, whatever follows it but a digit. */
  lemma FieldOfWord(w: Word, rest: string)
    requires rest == "" || !IsDigit(rest[0])
    ensures FieldAt(WordText(w) + rest) == Some(Field(w, |WordText(w)|))
    ensures (WordText(w) + rest)[|WordText(w)|..] == rest
  {
    hide WordText, ToWord, DecimalValue, DigitRun;
    var s := WordText(w) + rest;
    DigitRunOfPrefix(WordText(w), rest);
    WordTextReads(w);
    assert IsDigit(s[0]);
    assert SpaceRun(s) == 0 && s[0..] == s;
  }

  /** White space in front of a number is skipped, a '+' is read over, and a '-' negates modulo 2 to the 32. */
  lemma FieldAdmits(spaces: string, w: Word, rest: string)
    requires forall k :: 0 <= k < |spaces| ==> spaces[k] == ' ' || 9 <= spaces[k] as nat <= 13
    requires rest == "" || !IsDigit(rest[0])
    ensures var n := |spaces| + |WordText(w)|;
            && FieldAt(spaces + (WordText(w) + rest)) == Some(Field(w, n))
            && FieldAt(spaces + ("+" + (WordText(w) + rest))) == Some(Field(w, n + 1))
            && FieldAt(spaces + ("-" + (WordText(w) + rest))) == Some(Field(0 - w, n + 1))
  {
    hide WordText, DigitRun, DecimalValue, FieldAt;
    var text := WordText(w) + rest;
    assert IsDigit(text[0]);
    SignedField(spaces, "", w, rest);
    SignedField(spaces, "+", w, rest);
    SignedField(spaces, "-", w, rest);
    assert "" + text == text;
  }

  lemma SignedField(spaces: string, sign: string, w: Word, rest: string)
    requires forall k :: 0 <= k < |spaces| ==> IsSpace(spaces[k])
    requires sign == "" || sign == "+" || sign == "-"
    requires rest == "" || !IsDigit(rest[0])
    ensures FieldAt(spaces + (sign + (WordText(w) + rest)))
            == Some(Field(if sign == "-" then 0 - w else w, |spaces| + |sign| + |WordText(w)|))
  {
    hide FieldAt, WordText, DecimalValue, ToWord, Negated, IsSpace, Number;
    FieldOfParts(spaces, sign, WordText(w), rest);
    WordTextReads(w);
    TextOfNumber(w);
    NegatedNumber(w);
  }

  /** A conversion of text whose parts are known. */
  lemma FieldOfParts(spaces: string, sign: string, digits: string, rest: string)
    requires forall k :: 0 <= k < |spaces| ==> IsSpace(spaces[k])
    requires sign == "" || sign == "+" || sign == "-"
    requires digits != "" && AllDigits(digits) && (rest == "" || !IsDigit(rest[0]))
    ensures FieldAt(spaces + (sign + (digits + rest)))
            == Some(Field(if sign == "-" then Negated(DecimalValue(digits)) else ToWord(DecimalValue(digits)),
                          |spaces| + |sign| + |digits|))
  {
    hide FieldAt, SignedAt, DecimalValue, ToWord, Negated, IsSpace, IsDigit;
    var signed := sign + (digits + rest);
    FirstOfParts(sign, digits, signed[0]);
    SignedParts(sign, digits, rest);
    FieldBehindSpaces(spaces, signed);
  }

  lemma FieldBehindSpaces(spaces: string, signed: string)
    requires forall k :: 0 <= k < |spaces| ==> IsSpace(spaces[k])
    requires signed != "" && !IsSpace(signed[0]) && SignedAt(signed).Some?
    ensures FieldAt(spaces + signed)
            == Some(Field(SignedAt(signed).value.word, |spaces| + SignedAt(signed).value.length))
  {
    hide SignedAt, SpaceRun, IsSpace;
    SpaceRunOf(spaces, signed);
    assert (spaces + signed)[|spaces|..] == signed;
  }

  lemma SignedParts(sign: string, digits: string, rest: string)
    requires sign == "" || sign == "+" || sign == "-"
    requires digits != "" && AllDigits(digits) && (rest == "" || !IsDigit(rest[0]))
    ensures SignedAt(sign + (digits + rest))
            == Some(Field(if sign == "-" then Negated(DecimalValue(digits)) else ToWord(DecimalValue(digits)),
                          |sign| + |digits|))
  {
    hide DigitsAt, IsDigit, IsSpace, DecimalValue;
    var text := digits + rest;
    FirstOfParts(sign, digits, (sign + text)[0]);
    DigitsOfParts(digits, rest, |sign|, sign == "-");
    if sign == "" {
      assert sign + text == text;
    } else {
      assert (sign + text)[1..] == text;
    }
  }

  lemma DigitsOfParts(digits: string, rest: string, taken: nat, negative: bool)
    requires digits != "" && AllDigits(digits) && (rest == "" || !IsDigit(rest[0]))
    ensures DigitsAt(digits + rest, taken, negative)
            == Some(Field(if negative then Negated(DecimalValue(digits)) else ToWord(DecimalValue(digits)),
                          taken + |digits|))
  {
    hide DigitRun, DecimalValue, ToWord, Negated, IsDigit;
    DigitRunOfPrefix(digits, rest);
  }

  lemma FirstOfParts(sign: string, digits: string, c: char)
    requires digits != "" && AllDigits(digits)
    requires sign == "" || sign == "+" || sign == "-"
    requires c == if sign == "" then digits[0] else sign[0]
    ensures !IsSpace(c) && (sign == "" ==> c != '+' && c != '-')
  {
    assert IsDigit(digits[0]);
  }

  lemma TextOfNumber(w: Word)
    ensures DecimalValue(WordText(w)) == Number(w)
  {
    hide DecimalValue, DecimalText, Number;
    DecimalRoundTrip(Number(w));
  }

  lemma NegatedNumber(w: Word)
    ensures Negated(Number(w)) == 0 - w
  {
    hide ToWord, Number;
    WordRoundTrip(w);
  }

  lemma {:induction false} SpaceRunOf(spaces: string, rest: string)
    requires forall k :: 0 <= k < |spaces| ==> IsSpace(spaces[k])
    requires rest != "" && !IsSpace(rest[0])
    ensures SpaceRun(spaces + rest) == |spaces|
  {
    hide IsSpace;
    if spaces == "" {
      assert spaces + rest == rest;
    } else {
      SpaceRunOf(spaces[1..], rest);
      assert (spaces + rest)[1..] == spaces[1..] + rest;
    }
  }

  /** A number past 32 bits is stored as the greatest word. */
  lemma GreatNumberSaturates(n: nat)
    requires n >= 4294967296
    ensures ToWord(n) == 0xFFFF_FFFF && Negated(n) == 0xFFFF_FFFF
  {
  }

  /** A number and a dot in front add one conversion. */
  lemma ConversionsOfField(w: Word, rest: string, fields: nat)
    ensures Conversions(WordText(w) + ("." + rest), fields + 1) == [w] + Conversions(rest, fields)
  {
    hide WordText, FieldAt;
    FieldOfWord(w, "." + rest);
    ConversionsStep(WordText(w), rest, w, fields);
  }

  lemma ConversionsStep(text: string, rest: string, w: Word, fields: nat)
    requires FieldAt(text + ("." + rest)) == Some(Field(w, |text|))
    ensures Conversions(text + ("." + rest), fields + 1) == [w] + Conversions(rest, fields)
  {
    hide FieldAt;
    var s := text + ("." + rest);
    assert s[|text|] == '.' && s[|text| + 1..] == rest;
  }

  lemma ConversionsOfLast(w: Word)
    ensures Conversions(WordText(w), 1) == [w]
  {
    hide WordText, FieldAt;
    FieldOfWord(w, "");
    assert WordText(w) + "" == WordText(w);
  }

  /** The address a text assigns, if all four conversions succeed. */
  function Assigned(s: string): Option<Word> {
    var words := Conversions(s, 4);
    if |words| != 4 then None else Some(Combine(words[0], words[1], words[2], words[3]))
  }

  lemma ConversionsOfDotted(v: Word)
    ensures Conversions(DottedText(v), 4) == [Byte1(v), Byte2(v), Byte3(v), Byte4(v)]
  {
    hide Conversions, WordText, Byte1, Byte2, Byte3, Byte4;
    var a, b, c, d := Byte1(v), Byte2(v), Byte3(v), Byte4(v);
    ConversionsOfLast(d);
    ConversionsOfField(c, WordText(d), 1);
    ConversionsOfField(b, WordText(c) + ("." + WordText(d)), 2);
    ConversionsOfField(a, WordText(b) + ("." + (WordText(c) + ("." + WordText(d)))), 3);
  }

  /** Printing an address and assigning the text gives the address back, for every address. */
  lemma PrintedAddressReadsBack(v: Word)
    ensures Assigned(DottedText(v)) == Some(v)
  {
    hide Conversions, DottedText, Byte1, Byte2, Byte3, Byte4, Combine;
    ConversionsOfDotted(v);
    BytesCombine(v);
  }

  /** The first number of a text is the most significant byte. */
  lemma FirstIsMostSignificant(a: Word, b: Word, c: Word, d: Word)
    requires a < 256 && b < 256 && c < 256 && d < 256
    ensures Assigned(WordText(a) + ("." + (WordText(b) + ("." + (WordText(c) + ("." + WordText(d)))))))
            == Some(a * 0x100_0000 + b * 0x1_0000 + c * 0x100 + d)
  {
    hide Conversions, WordText, Combine;
    ConversionsOfLast(d);
    ConversionsOfField(c, WordText(d), 1);
    ConversionsOfField(b, WordText(c) + ("." + WordText(d)), 2);
    ConversionsOfField(a, WordText(b) + ("." + (WordText(c) + ("." + WordText(d)))), 3);
    CombineIsSum(a, b, c, d);
  }

  lemma CombineIsSum(a: Word, b: Word, c: Word, d: Word)
    requires a < 256 && b < 256 && c < 256 && d < 256
    ensures Combine(a, b, c, d) == a * 0x100_0000 + b * 0x1_0000 + c * 0x100 + d
  {
  }

  /** Two addresses never share a text. */
  lemma TextsDiffer(v: Word, w: Word)
    requires DottedText(v) == DottedText(w)
    ensures v == w
  {
    hide Assigned, DottedText;
    PrintedAddressReadsBack(v);
    PrintedAddressReadsBack(w);
  }

  /** Printing keeps an accepted text's numbers exactly when all four are bytes: a larger one
      spills into the byte to its left. */
  lemma AssignedBytesIff(s: string, v: Word)
    requires Assigned(s) == Some(v)
    ensures
      var words := Conversions(s, 4);
      Conversions(DottedText(v), 4) == words <==> forall k :: 0 <= k < 4 ==> words[k] < 256
  {
    hide Conversions, DottedText, Byte1, Byte2, Byte3, Byte4, Combine;
    var words := Conversions(s, 4);
    BytesOfCombineIff(words[0], words[1], words[2], words[3]);
    ConversionsOfDotted(v);
  }

  /** The text a zero-terminated buffer holds. */
  function CString(buffer: seq<char>): string {
    buffer[..Span(buffer, {'\0'})]
  }

  lemma CStringOf(text: string, tail: seq<char>)
    requires FreeOf(text, {'\0'})
    requires tail != [] && tail[0] == '\0'
    ensures CString(text + tail) == text
  {
    SpanOfPrefix(text, tail, {'\0'});
  }

  /** A number above 255 spills: the text "1.2.3.256" assigns 1.2.3.0. */
  lemma GreatNumberSpills()
    ensures Assigned("1.2.3.256") == Some(0x0102_0300)
    ensures Conversions(DottedText(0x0102_0300), 4) != Conversions("1.2.3.256", 4)
  {
    hide Conversions, WordText, DottedText;
    TextOf256();
    ConversionsOfLast(256);
    ConversionsOfField(3, WordText(256), 1);
    ConversionsOfField(2, WordText(3) + ("." + WordText(256)), 2);
    ConversionsOfField(1, WordText(2) + ("." + (WordText(3) + ("." + WordText(256)))), 3);
    assert WordText(1) + ("." + (WordText(2) + ("." + (WordText(3) + ("." + WordText(256)))))) == "1.2.3.256";
    ConversionsOfDotted(0x0102_0300);
  }

  lemma TextOf256()
    ensures WordText(1) == "1" && WordText(2) == "2" && WordText(3) == "3" && WordText(256) == "256"
  {
    assert DecimalText(25) == "25";
  }

  lemma DottedTextHasNoZero(v: Word)
    ensures FreeOf(DottedText(v), {'\0'})
  {
    hide Byte1, Byte2, Byte3, Byte4, WordText;
  }

  class Address {
    var version: nat
    var v4: Word

    constructor (addr: Word)
      ensures version == VERSION_4 && v4 == addr
    {
      version, v4 := VERSION_4, addr;
    }

    /** operator=(const char *): a text with fewer than four numbers leaves no address. */
    method AssignText(str: string)
      modifies this
      ensures match Assigned(str)
              case Some(v) => version == VERSION_4 && v4 == v
              case None => version == NO_VERSION && v4 == 0
    {
      hide Conversions, Combine;
      version, v4 := NO_VERSION, 0;
      var words := Conversions(str, 4);
      if |words| != 4 {
        return;
      }
      version := VERSION_4;
      v4 := Combine(words[0], words[1], words[2], words[3]);
    }
  }

  class AddressWriter {
    const version: nat
    const v4: Word
    const ipAsString: array<char>

    constructor (address: Address)
      ensures fresh(ipAsString) && ipAsString.Length == STRING_SIZE
      ensures version == address.version && v4 == address.v4
      ensures CString(ipAsString[..]) == if version == VERSION_4 then DottedText(v4) else ""
    {
      version, v4 := address.version, address.v4;
      ipAsString := new char[STRING_SIZE];
      new;
      UpdateString();
    }

    /** snprintf into the string field: as much of text as fits before the terminator. */
    method WriteText(text: string)
      requires ipAsString.Length == STRING_SIZE
      modifies ipAsString
      ensures
        var n := if |text| < STRING_SIZE then |text| else STRING_SIZE - 1;
        ipAsString[..] == text[..n] + (['\0'] + old(ipAsString[n + 1..]))
    {
      var n := if |text| < STRING_SIZE then |text| else STRING_SIZE - 1;
      forall i | 0 <= i < n {
        ipAsString[i] := text[i];
      }
      ipAsString[n] := '\0';
    }

    /** Clears the string field and, for an IPv4 address, writes its text and a terminator. */
    method UpdateString()
      requires ipAsString.Length == STRING_SIZE
      modifies ipAsString
      ensures CString(ipAsString[..]) == if version == VERSION_4 then DottedText(v4) else ""
      ensures '\0' in ipAsString[..]
    {
      hide CString, DottedText;
      forall i | 0 <= i < STRING_SIZE {
        ipAsString[i] := '\0';
      }
      if version == VERSION_4 {
        WriteText(DottedText(v4));
        DottedTextFits(v4);
        DottedTextHasNoZero(v4);
        assert DottedText(v4)[..|DottedText(v4)|] == DottedText(v4);
        CStringOf(DottedText(v4), ipAsString[|DottedText(v4)|..]);
        assert ipAsString[..] == DottedText(v4) + ipAsString[|DottedText(v4)|..];
        assert ipAsString[..][|DottedText(v4)|] == '\0';
      } else {
        CStringOf("", ipAsString[..]);
        assert "" + ipAsString[..] == ipAsString[..];
        assert ipAsString[..][0] == '\0';
      }
    }
  }
}
