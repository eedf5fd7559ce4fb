/**
 Printing what was parsed from a printed URI: exactly when the printed form of an
 accepted hierarchical text is accepted again and printed unchanged.
 */
module UriNormal {
  import opened Machine
  import opened Wrappers
  import opened Text
  import opened UriSyntax
  import opened UriTokens
  import opened UriLaws
  import Query

  /** The authority and path of hierarchical components, as printed. */
  function AuthorityText(h: Hierarchy): (s: string)
    ensures HasAuthority(s)
  {
    "//" + (UserText(h) + (h.host + (PortText(h.port) + PathText(h))))
  }

  /** A content that is accepted and reads as the printer writes: user information complete or absent,
      the host followed by a port, a path or nothing, and the port without a leading zero. */
  predicate IsCanonical(content: string)
    requires HasAuthority(content)
  {
    match UserPart(content)
    case Err(_) => false
    case Ok(u) =>
      && (HasAt(content) ==> u.username != "" && u.password != "")
      && match HostLength(u.rest)
         case Err(_) => false
         case Ok(n) => IsCanonicalTail(u.rest[n..])
  }

  predicate IsCanonicalTail(tail: string) {
    CleanStop(tail) && PortPart(tail).Ok? && (|tail| > 1 && tail[0] == ':' ==> tail[1] != '0')
  }

  /** The port is printed as it stands exactly when it has no leading zero. */
  lemma PortTextIsSameIff(raw: string, port: nat)
    requires IsPortToken(raw, port)
    ensures PortText(port) == raw <==> raw == "" || raw[1] != '0'
  {
    if raw != "" {
      var digits := raw[1..];
      assert raw == ":" + digits && digits[0] == raw[1];
      DecimalTextIsSameIff(digits);
      if port != 0 {
        assert PortText(port)[1..] == DecimalText(port);
        SingleDigit(digits);
      }
    }
  }

  lemma SingleDigit(digits: string)
    requires digits != "" && AllDigits(digits)
    ensures |digits| == 1 && digits[0] == '0' ==> DecimalValue(digits) == 0
  {
    if |digits| == 1 {
      assert digits[..0] == "";
    }
  }

  lemma UserTextIsSameIff(content: string, u: UserSplit, h: Hierarchy)
    requires HasAuthority(content) && UserPart(content) == Ok(u)
    requires h.username == u.username && h.password == u.password
    ensures UserText(h) == UserTokens(content, u) <==> (HasAt(content) ==> u.username != "" && u.password != "")
    ensures |UserText(h)| <= |UserTokens(content, u)|
  {
    hide UserPart, HasAt;
    UserPartIsExact(content);
  }

  lemma SameParts(u: string, v: string, rest: string, port: string, text: string, path: string, host: string)
    requires |v| <= |u| && |text| <= |port|
    requires rest == host + (port + path)
    ensures "//" + (u + rest) == "//" + (v + (host + (text + path))) <==> u == v && port == text
  {
    var a, b := "//" + (u + rest), "//" + (v + (host + (text + path)));
    assert |a| == 2 + |u| + |host| + |port| + |path| && |b| == 2 + |v| + |host| + |text| + |path|;
    if a == b {
      assert a[2..][..|u|] == u && b[2..][..|v|] == v;
      assert rest == a[2..][|u|..] && host + (text + path) == b[2..][|v|..];
      assert rest[|host|..][..|port|] == port && (host + (text + path))[|host|..][..|text|] == text;
    }
  }

  /** The tail behind an accepted host is canonical exactly when its port is printed as it stands. */
  lemma TailIsCanonicalIff(tail: string, port: string, p: nat, path: string)
    requires CleanStop(tail) && PortPart(tail).Ok? && tail == port + path && IsPortToken(port, p)
    requires port == "" ==> path == "" || path[0] == '/'
    ensures IsCanonicalTail(tail) <==> PortText(p) == port
  {
    hide PortPart, PortText;
    PortTextIsSameIff(port, p);
    if port != "" {
      assert tail[0] == port[0] && tail[1] == port[1];
    }
  }

  lemma RejectedIsNotCanonical(content: string)
    requires HasAuthority(content) && ParseAuthority(content).Err?
    ensures !IsCanonical(content)
  {
    hide UserPart, HostLength, PortPart;
  }

  lemma CleanStopIff(content: string, u: UserSplit, n: nat)
    requires HasAuthority(content) && UserPart(content) == Ok(u) && HostLength(u.rest) == Ok(n)
    ensures IsCanonical(content)
            <==> (HasAt(content) ==> u.username != "" && u.password != "") && IsCanonicalTail(u.rest[n..])
  {
    hide UserPart, HostLength, PortPart;
  }

  lemma AcceptedTail(content: string, h: Hierarchy, u: UserSplit)
    requires HasAuthority(content) && ParseAuthority(content) == Ok(h) && UserPart(content) == Ok(u)
    ensures h.username == u.username && h.password == u.password
    ensures ParseHost(u.rest, content, h.username, h.password) == Ok(h)
    ensures HostLength(u.rest).Ok? && h.host == u.rest[..HostLength(u.rest).value]
    ensures PortPart(u.rest[HostLength(u.rest).value..]).Ok?
  {
    hide UserPart, HostLength, PortPart;
  }

  /** A content is accepted and printed unchanged if and only if it is canonical. */
  lemma CanonicalIff(content: string)
    requires HasAuthority(content)
    ensures ParseAuthority(content).Ok? && AuthorityText(ParseAuthority(content).value) == content
            <==> IsCanonical(content)
  {
    if ParseAuthority(content).Err? {
      RejectedIsNotCanonical(content);
    } else {
      AcceptedCanonicalIff(content, ParseAuthority(content).value);
    }
  }

  lemma AcceptedCanonicalIff(content: string, h: Hierarchy)
    requires HasAuthority(content) && ParseAuthority(content) == Ok(h)
    ensures AuthorityText(h) == content <==> IsCanonical(content)
  {
    hide ParseAuthority, UserPart, HostLength, PortPart, ParseHost, UserText, UserTokens, PortText, HasAt, IsCanonical,
         IsCanonicalTail, HostText;
    UserPartIsAccepted(content);
    var u := UserPart(content).value;
    AcceptedTail(content, h, u);
    var n := HostLength(u.rest).value;
    var tail := u.rest[n..];
    UserPartIsExact(content);
    UserTextIsSameIff(content, u, h);
    CleanStopIff(content, u, n);
    var port := HostPartIsExact(u.rest, content, h);
    if CleanStop(tail) {
      assert u.rest == h.host + tail;
      assert u.rest[|h.host|..] == port + PathText(h);
      PortBehindHost(port, h);
      TailIsCanonicalIff(tail, port, h.port, PathText(h));
      PrintedPortIsShortest(port, h.port);
      SameParts(UserTokens(content, u), UserText(h), u.rest, port, PortText(h.port), PathText(h), h.host);
    } else {
      TailStopsClean(tail);
      assert |AuthorityText(h)| >= 2 + |content|;
    }
  }

  lemma UserPartIsAccepted(content: string)
    requires HasAuthority(content) && ParseAuthority(content).Ok?
    ensures UserPart(content).Ok?
  {
    hide UserPart;
  }

  lemma PortBehindHost(port: string, h: Hierarchy)
    requires h.rooted || h.path == ""
    ensures PathText(h) == "" || PathText(h)[0] == '/'
  {
  }

  lemma TailStopsClean(tail: string)
    ensures IsCanonicalTail(tail) ==> CleanStop(tail)
  {
  }

  // ---- The printed form of an accepted text ----

  /** The printed form is accepted, and printed unchanged. */
  predicate PrintsAgain(c: Components, separator: Separator) {
    var printed := Print(c, Hierarchical);
    var r := Parse(printed, Hierarchical, separator);
    r.Ok? && Print(r.value, Hierarchical) == printed
  }

  lemma ParsedPartsAreFree(text: string, separator: Separator, c: Components)
    requires Parse(text, Hierarchical, separator) == Ok(c)
    ensures FreeOf(AuthorityText(c.hier), {'?', '#'})
  {
    hide Parse, ParseAuthority, UserText, PortText, PathText, Query.Build;
    ParsedShape(text, Hierarchical, separator, c);
    if HasAuthority(c.content) {
      HierarchyPartsAreFree(c.content, c.hier);
    } else if c.content != "" && c.content[0] == '/' {
      assert c.content == "/" + c.hier.path;
      FreeOfConcat("/", c.hier.path, {'?', '#'});
    }
    PrintedPartsAreFree(c.hier);
  }

  /** Parsing the printed form again comes down to parsing its content. */
  lemma ParsedAgain(text: string, separator: Separator, c: Components)
    requires Parse(text, Hierarchical, separator) == Ok(c)
    ensures var content := AuthorityText(c.hier);
            var r := Parse(Print(c, Hierarchical), Hierarchical, separator);
            match ParseAuthority(content)
            case Err(_) => r.Err?
            case Ok(h) => r == Ok(c.(content := content, hier := h))
  {
    hide Parse, ParseAuthority, UserText, PortText, PathText, Query.Build;
    var cut := PrintedSections(c, Hierarchical);
    assert cut.content == AuthorityText(c.hier);
    ParsedShape(text, Hierarchical, separator, c);
    ParsedPartsAreFree(text, separator, c);
    PrintIsSections(c, Hierarchical);
    assert Body(cut.rawQuery) == c.query && Body(cut.rawFragment) == c.fragment;
    ParseOfSections(c.scheme, cut, Hierarchical, separator);
  }

  lemma SamePrintIff(c: Components, content: string, h: Hierarchy)
    ensures Print(c.(content := content, hier := h), Hierarchical) == Print(c, Hierarchical)
            <==> AuthorityText(h) == AuthorityText(c.hier)
  {
    hide AuthorityText, Print, UserText, PortText, PathText;
    var d := c.(content := content, hier := h);
    PrintIsSections(c, Hierarchical);
    PrintIsSections(d, Hierarchical);
    ContentsArePrinted(c);
    ContentsArePrinted(d);
    Cancel(c.scheme + ":", AuthorityText(h), AuthorityText(c.hier), QueryText(c.query), FragmentText(c.fragment));
  }

  lemma ContentsArePrinted(c: Components)
    ensures PrintedContent(c, Hierarchical) == AuthorityText(c.hier)
  {
  }

  lemma Cancel(s: string, a: string, b: string, q: string, f: string)
    ensures s + (a + q + f) == s + (b + q + f) <==> a == b
  {
    var x, y := s + (a + q + f), s + (b + q + f);
    if x == y {
      assert |x| == |s| + |a| + |q| + |f| && |y| == |s| + |b| + |q| + |f|;
      assert x[|s|..][..|a|] == a && y[|s|..][..|b|] == b;
    }
  }

  /** For every accepted hierarchical text, normal or not: the printed form is accepted and printed
      unchanged if and only if its authority and path are canonical. */
  lemma PrintsAgainIff(text: string, separator: Separator, c: Components)
    requires Parse(text, Hierarchical, separator) == Ok(c)
    ensures PrintsAgain(c, separator) <==> IsCanonical(AuthorityText(c.hier))
  {
    hide Parse, Print, ParseAuthority, IsCanonical, AuthorityText;
    var content := AuthorityText(c.hier);
    ParsedAgain(text, separator, c);
    CanonicalIff(content);
    if ParseAuthority(content).Ok? {
      SamePrintIff(c, content, ParseAuthority(content).value);
    }
  }

  /** The components that the printed form of h stands for: user information complete or absent, the path rooted. */
  function Completed(h: Hierarchy): Hierarchy {
    var user := h.username != "" && h.password != "";
    h.(username := if user then h.username else "", password := if user then h.password else "",
       rooted := h.rooted || h.path != "", path := if h.rooted || h.path == "" then h.path else h.path[1..])
  }

  lemma CompletedPrintsTheSame(h: Hierarchy)
    requires h.rooted || h.path == "" || h.path[0] == '/'
    ensures AuthorityText(Completed(h)) == AuthorityText(h)
  {
    assert PathText(Completed(h)) == PathText(h);
  }

  lemma CompletedIsWellFormed(content: string, h: Hierarchy)
    requires FreeOf(content, {'?', '#'}) && ParseHierarchy(content) == Ok(h)
    requires content == "" || content[0] == '/'
    requires UserText(h) != "" || (!HasAt(h.host) && !HasAt(h.path))
    ensures (h.rooted || h.path == "" || h.path[0] == '/') && HierarchyWellFormed(Completed(h))
  {
    if HasAuthority(content) {
      HierarchyPartsAreFree(content, h);
      AuthorityShape(content, h);
      if !h.rooted && h.path != "" {
        HasAtConcat(h.path[..1], h.path[1..]);
        assert h.path == h.path[..1] + h.path[1..];
      }
      assert {':', '@', '?', '#'} == {':', '@'} + {'?', '#'};
      assert {'@', '?', '#'} == {'@'} + {'?', '#'};
    } else {
      EmptyHost();
      if content != "" {
        assert content == "/" + h.path;
        FreeOfConcat("/", h.path, {'?', '#'});
      }
    }
  }

  lemma AuthorityShape(content: string, h: Hierarchy)
    requires HasAuthority(content) && ParseAuthority(content) == Ok(h)
    ensures FreeOf(h.username, {':', '@'}) && FreeOf(h.password, {'@'}) && HostText(h.host) && h.port < ULONG_LIMIT
    ensures h.rooted || h.path == "" || h.path == content
  {
    hide ParseAuthority, UserPart, HostLength, PortPart, ParseHost, HostText;
    UserPartIsAccepted(content);
    var u := UserPart(content).value;
    AcceptedTail(content, h, u);
    UserPartIsExact(content);
    var port := HostPartIsExact(u.rest, content, h);
  }

  /** A rooted content prints again whenever its user information is complete or no '@' is in host and path;
      characters behind an IP literal and leading zeros of a port do no harm. */
  lemma RootedPrintsAgain(text: string, separator: Separator, c: Components)
    requires Parse(text, Hierarchical, separator) == Ok(c)
    requires c.content == "" || c.content[0] == '/'
    requires UserText(c.hier) != "" || (!HasAt(c.hier.host) && !HasAt(c.hier.path))
    ensures PrintsAgain(c, separator)
  {
    hide Parse, Print, ParseHierarchy, IsCanonical, AuthorityText, HierarchyWellFormed, Completed, UserText, HasAt,
         PrintsAgain;
    ParsedShape(text, Hierarchical, separator, c);
    CompletedIsWellFormed(c.content, c.hier);
    CompletedPrintsTheSame(c.hier);
    var d := c.(hier := Completed(c.hier));
    AuthorityRoundTrip(d);
    ContentsArePrinted(d);
    AuthorityIsParsed(AuthorityText(d.hier));
    CanonicalIff(AuthorityText(d.hier));
    PrintsAgainIff(text, separator, c);
  }

  lemma AuthorityIsParsed(content: string)
    requires HasAuthority(content)
    ensures ParseHierarchy(content) == ParseAuthority(content)
  {
  }

  /** An accepted text whose printed form is accepted and printed differently: a leading zero behind a
      colon that becomes a port only by printing. */
  lemma LeadingZeroPrintsDifferently(separator: Separator)
    ensures var r := Parse("http:foo:007", Hierarchical, separator);
            r.Ok? && Print(r.value, Hierarchical) == "http://foo:007" && !PrintsAgain(r.value, separator)
  {
    hide Parse, Query.Build, Lower, Print, PrintsAgain, IsCanonical, AuthorityText, ParseHierarchy, IsCutOf;
    EmptyQuery(separator.Char());
    LowerHttp();
    NoAuthority();
    assert "foo:007" + "" + "" == "foo:007" && "http" + ":" + "foo:007" == "http:foo:007";
    ParseOfSections("http", Sections("foo:007", "", ""), Hierarchical, separator);
    PrintsAgainIff("http:foo:007", separator, FOO);
    PortIsNotCanonical();
  }

  const FOO := Components("http", "foo:007", NO_HIERARCHY.(path := "foo:007"), "", "", map[])

  lemma NoAuthority()
    ensures ParseHierarchy("foo:007") == Ok(FOO.hier) && IsCutOf(Sections("foo:007", "", ""), "foo:007" + "" + "")
    ensures AuthorityText(FOO.hier) == "//foo:007" && Print(FOO, Hierarchical) == "http://foo:007"
  {
  }

  lemma LowerHttp()
    ensures Lower("http") == "http"
  {
  }

  lemma PortIsNotCanonical()
    ensures !IsCanonical("//foo:007")
  {
    hide UserPart, HostLength, IsCanonical, IsCanonicalTail;
    var u := UserSplit("", "", "foo:007");
    NoUserInfo("foo:007");
    assert "//" + "foo:007" == "//foo:007" && "foo" + ":007" == "foo:007" && "foo:007"[3..] == ":007";
    HostFoo(":007");
    LeadingZeroTail(":007");
    CleanStopIff("//foo:007", u, 3);
  }

  lemma NoUserInfo(rest: string)
    requires '@' !in rest
    ensures UserPart("//" + rest) == Ok(UserSplit("", "", rest))
  {
    hide HasAt, SplitUser;
    HasAtIff("//" + rest);
    assert ("//" + rest)[2..] == rest;
  }

  lemma HostFoo(tail: string)
    requires CleanStop(tail)
    ensures HostLength("foo" + tail) == Ok(3)
  {
    hide HostLength;
    SpanOfAll("foo", {'[', ':', '/'});
    HostLengthOf("foo", tail);
  }

  lemma LeadingZeroTail(tail: string)
    requires |tail| > 1 && tail[0] == ':' && tail[1] == '0'
    ensures !IsCanonicalTail(tail)
  {
  }
}
