/**
 Printing and parsing URIs: exactly which components survive a round trip,
 exactly which texts parse to such components, and the normal form.
 */
module UriLaws {
  import opened Machine
  import opened Wrappers
  import opened Text
  import opened UriSyntax
  import opened UriTokens
  import Query

  predicate UserInfoWellFormed(h: Hierarchy) {
    if h.username == "" then h.password == "" && !HasAt(h.host) && !HasAt(h.path)
    else h.password != "" && FreeOf(h.username, {':', '@', '?', '#'}) && FreeOf(h.password, {'@', '?', '#'})
  }

  predicate HierarchyWellFormed(h: Hierarchy) {
    && UserInfoWellFormed(h)
    && HostText(h.host) && FreeOf(h.host, {'?', '#'})
    && h.port < ULONG_LIMIT
    && (h.rooted || h.path == "") && FreeOf(h.path, {'?', '#'})
  }

  /** What a caller can check of components before printing them. */
  predicate WellFormed(c: Components, category: Category, separator: Separator) {
    && c.scheme != "" && IsSchemeText(c.scheme) && Lower(c.scheme) == c.scheme
    && FreeOf(c.query, {'#'}) && Query.Build(c.query, separator.Char()).Some?
    && (if category.Hierarchical? then HierarchyWellFormed(c.hier)
        else c.hier == NO_HIERARCHY && FreeOf(c.content, {'?', '#'}))
  }

  /** The components a user of the class can compare; the content exists for non-hierarchical URIs only. */
  predicate SameComponents(c: Components, d: Components, category: Category) {
    && c.scheme == d.scheme && c.hier == d.hier && c.query == d.query && c.fragment == d.fragment
    && (category.NonHierarchical? ==> c.content == d.content)
  }

  /** The part of the printed form between the scheme and the query. */
  function PrintedContent(c: Components, category: Category): string {
    if category.Hierarchical? then
      "//" + (UserText(c.hier) + (c.hier.host + (PortText(c.hier.port) + PathText(c.hier))))
    else c.content + PathText(c.hier)
  }

  function PrintedSections(c: Components, category: Category): Sections {
    Sections(PrintedContent(c, category), QueryText(c.query), FragmentText(c.fragment))
  }

  lemma PrintIsSections(c: Components, category: Category)
    ensures var cut := PrintedSections(c, category);
            Print(c, category) == c.scheme + ":" + (cut.content + cut.rawQuery + cut.rawFragment)
  {
    var s, p, q, f := c.scheme + ":", PathText(c.hier), QueryText(c.query), FragmentText(c.fragment);
    if category.Hierarchical? {
      var u, h, t := UserText(c.hier), c.hier.host, PortText(c.hier.port);
      RegroupAuthority(u, h, t, p);
      RegroupResource(s, "//" + u + h + t, p, q, f);
    } else {
      RegroupResource(s, c.content, p, q, f);
    }
  }

  lemma RegroupAuthority(u: string, h: string, t: string, p: string)
    ensures ("//" + u + h + t) + p == "//" + (u + (h + (t + p)))
  {
  }

  lemma RegroupResource(s: string, a: string, p: string, q: string, f: string)
    ensures s + a + (p + q + f) == s + ((a + p) + q + f)
  {
  }

  // ---- Well-formed components survive printing and parsing ----

  lemma AtInRest(h: Hierarchy, port: string)
    requires port == "" || (port[0] == ':' && AllDigits(port[1..]))
    ensures HasAt(h.host + (port + PathText(h))) <==> HasAt(h.host) || HasAt(h.path)
  {
    HasAtConcat(h.host, port + PathText(h));
    HasAtConcat(port, PathText(h));
    HasAtConcat(if h.rooted then "/" else "", h.path);
    HasAtIff(port);
    if port != "" {
      assert port == ":" + port[1..];
    }
    HasAtIff("/");
  }

  lemma UserPartOf(h: Hierarchy, rest: string)
    requires UserInfoWellFormed(h)
    requires rest == h.host + (PortText(h.port) + PathText(h))
    ensures UserPart("//" + (UserText(h) + rest)) == Ok(UserSplit(h.username, h.password, rest))
  {
    var a := UserText(h) + rest;
    var content := "//" + a;
    assert content[2..] == a;
    AtAfterSlashes(content);
    if h.username == "" {
      assert a == rest;
      AtInRest(h, PortText(h.port));
    } else {
      assert FreeOf(h.username, {':', '@'}) && FreeOf(h.password, {'@'});
      SplitUserOf(h.username, h.password, rest);
    }
  }

  lemma HostPartOf(h: Hierarchy, content: string)
    requires HierarchyWellFormed(h)
    ensures ParseHost(h.host + (PortText(h.port) + PathText(h)), content, h.username, h.password) == Ok(h)
  {
    var tail := PortText(h.port) + PathText(h);
    HostLengthOf(h.host, tail);
    var s := h.host + tail;
    assert s[..|h.host|] == h.host && s[|h.host|..] == tail;
    PortPartOf(h.port, PathText(h));
  }

  lemma AuthorityRoundTrip(c: Components)
    requires HierarchyWellFormed(c.hier)
    ensures ParseHierarchy(PrintedContent(c, Hierarchical)) == Ok(c.hier)
  {
    var h := c.hier;
    var rest := h.host + (PortText(h.port) + PathText(h));
    UserPartOf(h, rest);
    HostPartOf(h, PrintedContent(c, Hierarchical));
  }

  lemma PrintedPartsAreFree(h: Hierarchy)
    requires FreeOf(h.username, {'?', '#'}) && FreeOf(h.password, {'?', '#'})
    requires FreeOf(h.host, {'?', '#'}) && FreeOf(h.path, {'?', '#'})
    ensures FreeOf("//" + (UserText(h) + (h.host + (PortText(h.port) + PathText(h)))), {'?', '#'})
  {
    var t := PortText(h.port);
    assert FreeOf(t, {'?', '#'});
    FreeOfConcat(t, PathText(h), {'?', '#'});
    FreeOfConcat(h.host, t + PathText(h), {'?', '#'});
    assert FreeOf(UserText(h), {'?', '#'});
    FreeOfConcat(UserText(h), h.host + (t + PathText(h)), {'?', '#'});
  }

  lemma FreeOfConcat(s: string, t: string, stops: set<char>)
    ensures FreeOf(s + t, stops) <==> FreeOf(s, stops) && FreeOf(t, stops)
  {
    assert forall k :: 0 <= k < |s| ==> (s + t)[k] == s[k];
    assert forall k :: 0 <= k < |t| ==> (s + t)[|s| + k] == t[k];
  }

  /** Parsing a text whose scheme and sections are known. */
  lemma ParseOfSections(scheme: string, cut: Sections, category: Category, separator: Separator)
    requires scheme != "" && IsSchemeText(scheme)
    requires IsCutOf(cut, cut.content + cut.rawQuery + cut.rawFragment)
    ensures Parse(scheme + ":" + (cut.content + cut.rawQuery + cut.rawFragment), category, separator)
            == Assemble(Lower(scheme), cut, category, separator)
  {
    hide Assemble, Cut, Lower, Span;
    var rest := cut.content + cut.rawQuery + cut.rawFragment;
    var text := scheme + ":" + rest;
    CutIsUnique(rest, cut);
    SpanOfPrefix(scheme, ":" + rest, {':'});
    assert text == scheme + (":" + rest);
    assert text[..|scheme|] == scheme && text[|scheme| + 1..] == rest;
  }

  /** Print then parse is the identity on well-formed components. */
  lemma RoundTrip(c: Components, category: Category, separator: Separator)
    requires WellFormed(c, category, separator)
    ensures var r := Parse(Print(c, category), category, separator);
            && r.Ok? && SameComponents(r.value, c, category)
            && Query.Build(c.query, separator.Char()) == Some(r.value.dict)
  {
    var cut := PrintedSections(c, category);
    PrintIsSections(c, category);
    if category.Hierarchical? {
      PrintedPartsAreFree(c.hier);
      AuthorityRoundTrip(c);
    } else {
      assert c.content + "" == c.content;
    }
    assert IsCutOf(cut, cut.content + cut.rawQuery + cut.rawFragment);
    ParseOfSections(c.scheme, cut, category, separator);
  }

  // ---- Which texts parse to well-formed components ----

  lemma {:induction false} LowerIsIdempotent(s: string)
    ensures Lower(Lower(s)) == Lower(s)
    ensures IsSchemeText(s) ==> IsSchemeText(Lower(s))
  {
    var r := Lower(s);
    assert forall k :: 0 <= k < |s| ==> Lower(r)[k] == r[k];
  }

  /** What every accepted text yields. */
  lemma ParsedShape(text: string, category: Category, separator: Separator, c: Components)
    requires Parse(text, category, separator) == Ok(c)
    ensures c.scheme != "" && IsSchemeText(c.scheme) && Lower(c.scheme) == c.scheme
    ensures FreeOf(c.content, {'?', '#'}) && FreeOf(c.query, {'#'})
    ensures Query.Build(c.query, separator.Char()) == Some(c.dict)
    ensures if category.Hierarchical? then ParseHierarchy(c.content) == Ok(c.hier) else c.hier == NO_HIERARCHY
  {
    var raw, cut := ParsedFields(text, category, separator);
    SchemeIsExact(text, raw);
    LowerIsIdempotent(raw);
    CutIsExact(text[|raw| + 1..]);
  }

  /** User information is both parts or neither, and with neither no '@' follows it. */
  predicate UserInfoIsNormal(u: UserSplit) {
    if u.username == "" then u.password == "" && !HasAt(u.rest) else u.password != ""
  }

  /** What a caller can check of the content of a text. */
  predicate NormalContent(content: string) {
    if HasAuthority(content) then
      HostScanStops(content) && (match UserPart(content) case Ok(u) => UserInfoIsNormal(u) case Err(_) => true)
    else content == "" || (content[0] == '/' && !HasAt(content))
  }

  lemma UserPartIsFree(content: string, u: UserSplit)
    requires HasAuthority(content) && UserPart(content) == Ok(u) && FreeOf(content, {'?', '#'})
    ensures FreeOf(u.username, {'?', '#'}) && FreeOf(u.password, {'?', '#'}) && FreeOf(u.rest, {'?', '#'})
  {
    var stops := {'?', '#'};
    UserPartIsExact(content);
    FreeOfConcat("//", UserTokens(content, u) + u.rest, stops);
    FreeOfConcat(UserTokens(content, u), u.rest, stops);
    if HasAt(content) {
      FreeOfConcat(u.username + ":" + u.password, "@", stops);
      FreeOfConcat(u.username + ":", u.password, stops);
      FreeOfConcat(u.username, ":", stops);
    }
  }

  lemma HostPartIsFree(s: string, content: string, h: Hierarchy)
    requires ParseHost(s, content, h.username, h.password) == Ok(h)
    requires FreeOf(s, {'?', '#'}) && FreeOf(content, {'?', '#'})
    ensures FreeOf(h.host, {'?', '#'}) && FreeOf(h.path, {'?', '#'})
  {
    var stops := {'?', '#'};
    var port := HostPartIsExact(s, content, h);
    var tail := s[HostLength(s).value..];
    assert s == h.host + tail;
    FreeOfConcat(h.host, tail, stops);
    if CleanStop(tail) {
      assert tail == port + PathText(h);
      FreeOfConcat(port, PathText(h), stops);
      FreeOfConcat(if h.rooted then "/" else "", h.path, stops);
    }
  }

  lemma HierarchyPartsAreFree(content: string, h: Hierarchy)
    requires HasAuthority(content) && ParseAuthority(content) == Ok(h) && FreeOf(content, {'?', '#'})
    ensures FreeOf(h.username, {'?', '#'}) && FreeOf(h.password, {'?', '#'})
    ensures FreeOf(h.host, {'?', '#'}) && FreeOf(h.path, {'?', '#'})
  {
    var u := UserPart(content).value;
    UserPartIsFree(content, u);
    HostPartIsFree(u.rest, content, h);
  }

  lemma AuthorityNormalIff(content: string, h: Hierarchy)
    requires HasAuthority(content) && ParseAuthority(content) == Ok(h) && FreeOf(content, {'?', '#'})
    ensures HierarchyWellFormed(h) <==> NormalContent(content)
  {
    HierarchyPartsAreFree(content, h);
    UserPartIsExact(content);
    var u := UserPart(content).value;
    var port := HostPartIsExact(u.rest, content, h);
    if HostScanStops(content) {
      assert u.rest == h.host + (port + PathText(h));
      AtInRest(h, port);
      UserInfoIff(u, h);
    }
  }

  lemma UserInfoIff(u: UserSplit, h: Hierarchy)
    requires h.username == u.username && FreeOf(h.username, {':', '@'}) && FreeOf(h.username, {'?', '#'})
    requires h.password == u.password && FreeOf(h.password, {'@'}) && FreeOf(h.password, {'?', '#'})
    requires HasAt(u.rest) <==> HasAt(h.host) || HasAt(h.path)
    ensures UserInfoWellFormed(h) <==> UserInfoIsNormal(u)
  {
    assert {':', '@', '?', '#'} == {':', '@'} + {'?', '#'};
    assert {'@', '?', '#'} == {'@'} + {'?', '#'};
  }

  lemma EmptyHost()
    ensures HostText("") && FreeOf("", {'?', '#'}) && !HasAt("")
  {
  }

  /** An accepted hierarchical text yields well-formed components exactly when its content is normal. */
  lemma ParsedIsWellFormedIff(text: string, separator: Separator, c: Components)
    requires Parse(text, Hierarchical, separator) == Ok(c)
    ensures WellFormed(c, Hierarchical, separator) <==> NormalContent(c.content)
  {
    hide Parse, HostText, HostScanStops, UserPart, ParseAuthority, Query.Build;
    ParsedShape(text, Hierarchical, separator, c);
    if HasAuthority(c.content) {
      AuthorityNormalIff(c.content, c.hier);
    } else if c.content != "" && c.content[0] == '/' {
      assert c.content == "/" + c.hier.path;
      FreeOfConcat("/", c.hier.path, {'?', '#'});
      EmptyHost();
    } else if c.content == "" {
      EmptyHost();
    }
  }

  /** The normal form: printing after parsing is accepted, keeps the components and is idempotent. */
  lemma NormalForm(text: string, separator: Separator, c: Components)
    requires Parse(text, Hierarchical, separator) == Ok(c)
    requires NormalContent(c.content)
    ensures var printed := Print(c, Hierarchical);
            var r := Parse(printed, Hierarchical, separator);
            && r.Ok? && SameComponents(r.value, c, Hierarchical) && r.value.dict == c.dict
            && Print(r.value, Hierarchical) == printed
  {
    ParsedIsWellFormedIff(text, separator, c);
    ParsedShape(text, Hierarchical, separator, c);
    RoundTrip(c, Hierarchical, separator);
  }

  /** Every accepted non-hierarchical text yields well-formed components and has a normal form. */
  lemma NonHierarchicalNormalForm(text: string, separator: Separator, c: Components)
    requires Parse(text, NonHierarchical, separator) == Ok(c)
    ensures WellFormed(c, NonHierarchical, separator)
    ensures var printed := Print(c, NonHierarchical);
            var r := Parse(printed, NonHierarchical, separator);
            && r.Ok? && SameComponents(r.value, c, NonHierarchical) && r.value.dict == c.dict
            && Print(r.value, NonHierarchical) == printed
  {
    hide Parse, Query.Build;
    ParsedShape(text, NonHierarchical, separator, c);
    RoundTrip(c, NonHierarchical, separator);
  }

  // ---- Only well-formed components survive ----

  lemma PrintedRest(c: Components, category: Category, separator: Separator, d: Components)
      returns (rest: string)
    requires Parse(Print(c, category), category, separator) == Ok(d) && SameComponents(d, c, category)
    ensures var cut := PrintedSections(c, category);
            rest == cut.content + cut.rawQuery + cut.rawFragment && d.content == Cut(rest).content
  {
    var text := Print(c, category);
    PrintIsSections(c, category);
    var raw, cut := ParsedFields(text, category, separator);
    SchemeIsExact(text, raw);
    rest := text[|raw| + 1..];
    assert |raw| == |c.scheme|;
  }

  lemma SlashesAreContent(rest: string)
    requires HasAuthority(rest)
    ensures HasAuthority(Cut(rest).content)
  {
    var n := Span(rest, {'?', '#'});
    assert rest[0] == '/' && rest[1] == '/';
    assert n != 0 && n != 1;
  }

  /** The content that was parsed is the content that was printed. */
  lemma ParsedContentIsPrinted(c: Components, separator: Separator, d: Components)
    requires Parse(Print(c, Hierarchical), Hierarchical, separator) == Ok(d) && SameComponents(d, c, Hierarchical)
    ensures d.content == PrintedContent(c, Hierarchical) && HasAuthority(d.content)
  {
    hide Parse, ParseAuthority, Cut, UserText, PortText, PathText, Query.Build;
    var rest := PrintedRest(c, Hierarchical, separator, d);
    var cut := PrintedSections(c, Hierarchical);
    ParsedShape(Print(c, Hierarchical), Hierarchical, separator, d);
    assert rest[..2] == "//";
    SlashesAreContent(rest);
    HierarchyPartsAreFree(d.content, c.hier);
    PrintedPartsAreFree(c.hier);
    assert IsCutOf(cut, rest);
    CutIsUnique(rest, cut);
  }

  /** A content that prints from its own components is normal. */
  lemma PrintedContentIsNormal(c: Components, content: string)
    requires HasAuthority(content) && ParseAuthority(content) == Ok(c.hier)
    requires content == PrintedContent(c, Hierarchical)
    ensures NormalContent(content)
  {
    var h := c.hier;
    UserPartIsExact(content);
    var u := UserPart(content).value;
    var port := HostPartIsExact(u.rest, content, h);
    if HostScanStops(content) {
      PrintedPortIsShortest(port, h.port);
      AuthorityLengths(UserTokens(content, u), UserText(h), h.host, port, PortText(h.port), PathText(h));
      if !HasAt(content) {
        AtAfterSlashes(content);
      }
    } else {
      assert false;
    }
  }

  lemma AuthorityLengths(u: string, v: string, host: string, p: string, q: string, path: string)
    requires "//" + (u + (host + (p + path))) == "//" + (v + (host + (q + path)))
    requires |q| <= |p|
    ensures |u| <= |v|
  {
    assert |"//" + (u + (host + (p + path)))| == 2 + |u| + |host| + |p| + |path|;
  }

  /** Printing and then parsing gives the components back exactly when they are well formed. */
  lemma RoundTripIff(c: Components, category: Category, separator: Separator)
    ensures var r := Parse(Print(c, category), category, separator);
            (r.Ok? && SameComponents(r.value, c, category)) <==> WellFormed(c, category, separator)
  {
    var r := Parse(Print(c, category), category, separator);
    if WellFormed(c, category, separator) {
      RoundTrip(c, category, separator);
    } else if r.Ok? && SameComponents(r.value, c, category) {
      ParsedShape(Print(c, category), category, separator, r.value);
      if category.Hierarchical? {
        ParsedContentIsPrinted(c, separator, r.value);
        PrintedContentIsNormal(c, r.value.content);
        ParsedIsWellFormedIff(Print(c, category), separator, r.value);
      }
      assert false;
    }
  }

  /** Components that a caller may well print and that do not come back: an '@' in the path. */
  lemma AtInPathIsNotKept(separator: Separator)
    ensures var c := Components("http", "", Hierarchy("", "", "host", 0, true, "@me"), "", "", map[]);
            var r := Parse(Print(c, Hierarchical), Hierarchical, separator);
            !(r.Ok? && SameComponents(r.value, c, Hierarchical))
  {
    var c := Components("http", "", Hierarchy("", "", "host", 0, true, "@me"), "", "", map[]);
    HasAtIff(c.hier.path);
    assert c.hier.path[0] == '@';
    RoundTripIff(c, Hierarchical, separator);
  }

  lemma LiteralThenText(x: string, content: string)
    requires x != "" && x[0] !in {':', '/'}
    ensures ParseHost("[v6]" + x, content, "", "") == Ok(Hierarchy("", "", "[v6]", 0, false, content))
    ensures HostLength("[v6]" + x) == Ok(4)
  {
    hide Span, HostLength;
    var s := "[v6]" + x;
    LiteralLengthOf("", "[v6", x);
    assert "" + ("[v6" + ("]" + x)) == s;
    assert s[..4] == "[v6]" && s[4..] == x;
  }

  /** A text that is accepted and has no normal form: characters after an IP literal put all
      of the content in the path. */
  lemma TextAfterLiteralIsPath(x: string)
    requires x != "" && x[0] !in {':', '/'} && !HasAt(x)
    ensures var content := "//[v6]" + x;
            && ParseHierarchy(content) == Ok(Hierarchy("", "", "[v6]", 0, false, content))
            && !NormalContent(content)
  {
    hide HostLength, ParseHost, HasAt, SplitUser;
    var content := "//[v6]" + x;
    var rest := "[v6]" + x;
    assert content[2..] == rest && rest[4..] == x;
    assert content == "//[v6]" + x;
    HasAtConcat("//[v6]", x);
    HasAtIff("//[v6]");
    LiteralThenText(x, content);
  }

  /** Such a text is accepted by the parser, whose components for it are not well formed. */
  lemma TextAfterLiteralIsAccepted(x: string, separator: Separator)
    requires x != "" && x[0] !in {':', '/'} && !HasAt(x) && FreeOf(x, {'?', '#'})
    ensures var content := "//[v6]" + x;
            var r := Parse("s:" + content, Hierarchical, separator);
            && r.Ok? && r.value.hier == Hierarchy("", "", "[v6]", 0, false, content)
            && !WellFormed(r.value, Hierarchical, separator)
  {
    hide Parse, ParseHierarchy, NormalContent, WellFormed, HasAt, Query.Build;
    var content := "//[v6]" + x;
    TextAfterLiteralIsPath(x);
    FreeOfConcat("//[v6]", x, {'?', '#'});
    assert content + "" + "" == content && "s" + ":" + content == "s:" + content;
    EmptyQuery(separator.Char());
    ParseOfSections("s", Sections(content, "", ""), Hierarchical, separator);
    ParsedIsWellFormedIff("s:" + content, separator, Parse("s:" + content, Hierarchical, separator).value);
  }

  lemma EmptyQuery(sep: char)
    ensures Query.Build("", sep) == Some(map[])
  {
    Query.CollectNothing();
  }
}
