/**
 Which characters, exceptions and dictionaries a URI text gives, told from the text
 itself, and one URI in full.
 */
module UriErrors {
  import opened Wrappers
  import opened Text
  import opened UriSyntax
  import opened UriTokens
  import opened UriLaws
  import Query

  // ---- Characters ----

  /** The letters A to Z become a to z, and no other character changes. */
  lemma LowerIs(c: char)
    ensures 65 <= c as nat <= 90 ==> ToLower(c) as nat == c as nat + 32
    ensures !(65 <= c as nat <= 90) ==> ToLower(c) == c
  {
  }

  /** A scheme is made of the digits, the letters, '+', '-' and '.'. */
  lemma SchemeCharIff(c: char)
    ensures var n := c as nat;
            IsSchemeChar(c) <==> 48 <= n <= 57 || 65 <= n <= 90 || 97 <= n <= 122 || n == 43 || n == 45 || n == 46
  {
  }

  // ---- Exceptions ----

  /** The exceptions of the scheme scan, each exactly for its texts. */
  lemma SchemeErrorsIff(text: string)
    ensures SchemeLength(text) == Err(InvalidSchemeCharacter)
            <==> exists k :: 0 <= k < |text| && !IsSchemeChar(text[k]) && forall j :: 0 <= j <= k ==> text[j] != ':'
    ensures SchemeLength(text) == Err(UnterminatedScheme)
            <==> forall k :: 0 <= k < |text| ==> text[k] != ':' && IsSchemeChar(text[k])
    ensures SchemeLength(text) == Err(EmptyScheme) <==> text != "" && text[0] == ':'
  {
    hide IsSchemeChar;
    var n := Span(text, {':'});
    SpanIsFree(text, {':'});
    assert forall k :: 0 <= k < n ==> text[..n][k] == text[k] && text[k] != ':';
    if !IsSchemeText(text[..n]) {
      var k :| 0 <= k < n && !IsSchemeChar(text[..n][k]);
      assert !IsSchemeChar(text[k]);
    }
    if n < |text| {
      assert text[n] == ':';
    }
  }

  /** A URI is refused as empty exactly when it is, and for its scheme exactly when the scheme scan refuses it. */
  lemma FirstErrors(text: string, category: Category, separator: Separator)
    ensures Parse(text, category, separator) == Err(EmptyUri) <==> text == ""
    ensures text != "" && SchemeLength(text).Err? ==>
              Parse(text, category, separator) == Err(SchemeLength(text).error)
  {
    hide ParseHierarchy, Query.Build, Cut, HostLength, PortPart, SplitUser;
    if text != "" && SchemeLength(text).Ok? {
      var n := SchemeLength(text).value;
      LaterErrors(Lower(text[..n]), Cut(text[n + 1..]), category, separator);
    }
  }

  lemma LaterErrors(scheme: string, cut: Sections, category: Category, separator: Separator)
    ensures Assemble(scheme, cut, category, separator) != Err(EmptyUri)
  {
    hide Query.Build, HasAt;
  }

  /** User information is refused exactly when no ':' comes before its '@'. */
  lemma UserErrorIff(a: string)
    requires HasAt(a)
    ensures SplitUser(a).Err? <==> ':' !in a[..Span(a, {'@'})]
    ensures SplitUser(a).Err? ==> SplitUser(a).error == UsernameWithoutPassword
  {
    AtIsAhead(a);
    var i, j := Span(a, {':', '@'}), Span(a, {'@'});
    SpanIsFree(a, {':', '@'});
    SpanIsFree(a, {'@'});
    assert forall k :: 0 <= k < i ==> a[..i][k] == a[k] && a[k] != ':' && a[k] != '@';
    assert forall k :: 0 <= k < j ==> a[..j][k] == a[k] && a[k] != '@';
    assert a[j] == '@' && i <= j;
    if a[i] == ':' {
      assert a[..j][i] == ':';
    }
  }

  /** A host is refused exactly when its first '[', before any ':' or '/', is not closed. */
  lemma HostErrorIff(s: string)
    ensures HostLength(s).Err?
            <==> exists i :: 0 <= i < |s| && s[i] == '[' && FreeOf(s[..i], {'[', ':', '/'}) && ']' !in s[i..]
    ensures HostLength(s).Err? ==> HostLength(s).error == UnterminatedIpLiteral
  {
    var i := Span(s, {'[', ':', '/'});
    SpanIsFree(s, {'[', ':', '/'});
    if i < |s| && s[i] == '[' {
      SpanIsFree(s[i..], {']'});
      assert s[i..][..|s[i..]|] == s[i..];
    }
    forall k | 0 <= k < |s| && s[k] == '[' && FreeOf(s[..k], {'[', ':', '/'}) && ']' !in s[k..]
      ensures HostLength(s).Err?
    {
      SpanOfPrefix(s[..k], s[k..], {'[', ':', '/'});
      assert s[..k] + s[k..] == s;
      SpanOfAll(s[k..], {']'});
    }
  }

  /** What a ':' and the characters d up to a '/' or the end are as a port. */
  lemma PortIs(d: string, rest: string)
    requires '/' !in d && (rest == "" || rest[0] == '/')
    ensures !AllDigits(d) ==> PortPart(":" + (d + rest)) == Err(InvalidPortCharacter)
    ensures d == "" ==> PortPart(":" + (d + rest)) == Err(EmptyPort)
    ensures AllDigits(d) && DecimalValue(d) >= 4294967296 ==> PortPart(":" + (d + rest)) == Err(PortOutOfRange)
    ensures AllDigits(d) && d != "" && DecimalValue(d) < 4294967296 ==>
              PortPart(":" + (d + rest)) == Ok(PortSplit(DecimalValue(d), rest))
  {
    hide Span, DecimalValue;
    assert (":" + (d + rest))[1..] == d + rest;
    SpanOfPrefix(d, rest, {'/'});
    if d == "" {
      NoValue();
    }
  }

  lemma NoValue()
    ensures DecimalValue("") == 0
  {
  }

  // ---- The dictionary of a parsed URI ----

  /** The dictionary of an accepted URI is that of the stanzas between '&', or between ';'. */
  lemma DictionaryIsOfStanzas(text: string, category: Category, separator: Separator, c: Components,
                              k: string, v: string)
    requires Parse(text, category, separator) == Ok(c) && c.query != "" && '=' !in k
    ensures var stanzas := Query.Split(c.query, if separator == Ampersand then '&' else ';');
            && (k + "=" + v in stanzas ==> k in c.dict && c.dict[k] == v)
            && (k in stanzas ==> k in c.dict && c.dict[k] == "")
            && (k in c.dict ==> k + "=" + c.dict[k] in stanzas || (c.dict[k] == "" && k in stanzas))
  {
    hide Parse, Query.Build, Query.Split;
    ParsedShape(text, category, separator, c);
    var sep := separator.Char();
    Query.StanzaIsEntered(c.query, sep, k, v);
    if k in c.dict {
      Query.KeyComesFromStanza(c.query, sep, k);
    }
  }

  // ---- One URI in full ----

  const FULL := Components(
    "http", "", Hierarchy("user", "pw", "host", 80, true, "dir/file"), "key=value", "frag", map["key" := "value"])

  lemma FullIsPrinted()
    ensures Print(FULL, Hierarchical) == "http://user:pw@host" + ":80/dir/file" + "?key=value#frag"
  {
    PortOf80();
    assert UserText(FULL.hier) == "user:pw@" && PathText(FULL.hier) == "/dir/file";
    assert "http" + ":" + ("//" + "user:pw@" + "host") == "http://user:pw@host";
    assert ":80" + "/dir/file" == ":80/dir/file" && "?key=value" + "#frag" == "?key=value#frag";
    Regroup("http" + ":", "//" + "user:pw@" + "host", ":80", "/dir/file", "?key=value", "#frag");
  }

  lemma PortOf80()
    ensures PortText(80) == ":80"
  {
    assert DecimalText(8) == "8" && DecimalText(80) == "8" + "0";
  }

  lemma Regroup(s: string, a: string, b: string, c: string, d: string, e: string)
    ensures s + (a + b) + (c + d + e) == (s + a) + (b + c) + (d + e)
  {
  }

  /** "http://user:pw@host:80/dir/file?key=value#frag" is taken apart as everybody expects. */
  lemma FullIsParsed()
    ensures var r := Parse("http://user:pw@host" + ":80/dir/file" + "?key=value#frag", Hierarchical, Ampersand);
            && r.Ok? && r.value.scheme == "http" && r.value.query == "key=value" && r.value.fragment == "frag"
            && r.value.hier == Hierarchy("user", "pw", "host", 80, true, "dir/file")
            && "key" in r.value.dict && r.value.dict["key"] == "value"
  {
    hide Parse, Print, WellFormed, Query.Build;
    FullIsPrinted();
    FullIsWellFormed();
    RoundTrip(FULL, Hierarchical, Ampersand);
    FullDictionary();
  }

  lemma FullDictionary()
    ensures Query.Build("key=value", '&') == Some(map["key" := "value"])
  {
    hide Query.Build;
    assert "key" + "=" + "value" == "key=value";
    OneStanza("key", "value", '&');
  }

  lemma OneStanza(k: string, v: string, sep: char)
    requires '=' !in k && sep !in k + "=" + v
    ensures Query.Build(k + "=" + v, sep) == Some(map[k := v])
  {
    hide Query.Collect, Query.EntryOf;
    var q := k + "=" + v;
    SpanOfAll(q, {sep});
    assert Query.Split(q, sep) == [q];
    Query.KeyWithValue(k, v);
    EntryOfOne(q);
    CollectOne(Query.Entry(k, v));
  }

  lemma EntryOfOne(q: string)
    ensures Query.EntriesOf([q]) == [Query.EntryOf(q)]
  {
    hide Query.EntryOf;
    assert [q][1..] == [];
  }

  lemma CollectOne(e: Query.Entry)
    ensures Query.Collect([e]) == Some(map[e.key := e.value])
  {
    Query.CollectNothing();
    assert [e][..0] == [];
  }

  lemma FullIsWellFormed()
    ensures WellFormed(FULL, Hierarchical, Ampersand)
  {
    hide Query.Build, Lower, Span;
    FullDictionary();
    LowerIsSame("http");
    SpanOfAll("host", {'[', ':', '/'});
  }

  lemma LowerIsSame(s: string)
    requires forall k :: 0 <= k < |s| ==> ToLower(s[k]) == s[k]
    ensures Lower(s) == s
  {
  }
}
