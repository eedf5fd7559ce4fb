/** Nothing is lost when a URI text is cut into tokens, and every token is free of its delimiters. */
module UriTokens {
  import opened Machine
  import opened Wrappers
  import opened Text
  import opened UriSyntax

  /** s is the content, then "" or '?' and the query, then "" or '#' and the fragment. */
  ghost predicate IsCutOf(cut: Sections, s: string) {
    && s == cut.content + cut.rawQuery + cut.rawFragment
    && FreeOf(cut.content, {'?', '#'})
    && (cut.rawQuery == "" || (cut.rawQuery[0] == '?' && FreeOf(Body(cut.rawQuery), {'#'})))
    && (cut.rawFragment == "" || cut.rawFragment[0] == '#')
  }

  lemma QueryStop(s: string)
    requires s == "" || s[0] in {'?', '#'}
    ensures var m := QueryLength(s);
            && (m == 0 || (s[0] == '?' && FreeOf(s[..m][1..], {'#'})))
            && (m == |s| || s[m] == '#')
  {
    if s != "" && s[0] == '?' {
      var m := QueryLength(s);
      SpanIsFree(s[1..], {'#'});
      assert s[..m][1..] == s[1..][..m - 1];
      assert m < |s| ==> s[1..][m - 1] == s[m];
    }
  }

  lemma CutIsExact(s: string)
    ensures IsCutOf(Cut(s), s)
  {
    var n := Span(s, {'?', '#'});
    SpanIsFree(s, {'?', '#'});
    var a := s[n..];
    QueryStop(a);
    CutInThree(s, n, QueryLength(a));
  }

  /** What IsCutOf describes, Cut finds: the sections of a text are unique. */
  lemma CutIsUnique(s: string, cut: Sections)
    requires IsCutOf(cut, s)
    ensures Cut(s) == cut
  {
    var a := cut.rawQuery + cut.rawFragment;
    assert s == cut.content + a;
    SpanOfPrefix(cut.content, a, {'?', '#'});
    QueryLengthOf(cut.rawQuery, cut.rawFragment);
  }

  lemma QueryLengthOf(q: string, f: string)
    requires q == "" || (q[0] == '?' && FreeOf(Body(q), {'#'}))
    requires f == "" || f[0] == '#'
    ensures QueryLength(q + f) == |q| && (q + f)[..|q|] == q && (q + f)[|q|..] == f
  {
    if q != "" {
      SpanOfPrefix(q[1..], f, {'#'});
      assert (q + f)[1..] == q[1..] + f;
    } else {
      assert q + f == f;
    }
  }

  ghost predicate IsTokenised(text: string, c: Components, raw: string, cut: Sections) {
    && text == raw + ":" + (cut.content + cut.rawQuery + cut.rawFragment)
    && IsCutOf(cut, cut.content + cut.rawQuery + cut.rawFragment)
    && raw != "" && IsSchemeText(raw) && c.scheme == Lower(raw)
    && c.content == cut.content && c.query == Body(cut.rawQuery) && c.fragment == Body(cut.rawFragment)
  }

  lemma ParsedFields(text: string, category: Category, separator: Separator) returns (raw: string, cut: Sections)
    requires Parse(text, category, separator).Ok?
    ensures var c := Parse(text, category, separator).value;
            && SchemeLength(text) == Ok(|raw|) && raw == text[..|raw|] && cut == Cut(text[|raw| + 1..])
            && c.scheme == Lower(raw) && c.content == cut.content
            && c.query == Body(cut.rawQuery) && c.fragment == Body(cut.rawFragment)
            && (if category.Hierarchical? then ParseHierarchy(cut.content) == Ok(c.hier) else c.hier == NO_HIERARCHY)
  {
    var n := SchemeLength(text).value;
    raw, cut := text[..n], Cut(text[n + 1..]);
  }

  lemma SchemeIsExact(text: string, raw: string)
    requires SchemeLength(text) == Ok(|raw|) && raw == text[..|raw|]
    ensures raw != "" && IsSchemeText(raw) && text == raw + ":" + text[|raw| + 1..]
  {
  }

  /** Lossless tokenisation: every accepted text is raw scheme, ':', content, query and fragment. */
  lemma TokensAreLossless(text: string, category: Category, separator: Separator)
    requires Parse(text, category, separator).Ok?
    ensures exists raw, cut :: IsTokenised(text, Parse(text, category, separator).value, raw, cut)
  {
    var raw, cut := ParsedFields(text, category, separator);
    SchemeIsExact(text, raw);
    CutIsExact(text[|raw| + 1..]);
    assert IsTokenised(text, Parse(text, category, separator).value, raw, cut);
  }

  // ---- The authority ----

  /** A host as the host scan delimits it: no '[', ':' or '/', or such a prefix and one bracketed literal. */
  predicate HostText(h: string) {
    var i := Span(h, {'[', ':', '/'});
    i == |h| || (h[i] == '[' && i + Span(h[i..], {']'}) == |h| - 1)
  }

  /** After the host comes a port, a path or nothing. */
  predicate CleanStop(s: string) {
    s == "" || s[0] == ':' || s[0] == '/'
  }

  lemma HostIsExact(s: string)
    requires HostLength(s).Ok?
    ensures var n := HostLength(s).value; HostText(s[..n]) && (CleanStop(s[n..]) || (n > 0 && s[n - 1] == ']'))
  {
    var n := HostLength(s).value;
    var i := Span(s, {'[', ':', '/'});
    SpanIsFree(s, {'[', ':', '/'});
    if i < |s| && s[i] == '[' {
      SpanIsFree(s[i..], {']'});
      assert s[i..][..n - 1 - i] == s[i..n - 1];
      SpanOfPrefix(s[..i], s[..n][i..], {'[', ':', '/'});
      assert s[..i] + s[..n][i..] == s[..n];
      SpanOfPrefix(s[i..n - 1], "]", {']'});
      assert s[..n][i..] == s[i..n - 1] + "]";
    } else {
      SpanOfAll(s[..n], {'[', ':', '/'});
    }
  }

  lemma LiteralLengthOf(prefix: string, body: string, rest: string)
    requires FreeOf(prefix, {'[', ':', '/'}) && body != "" && body[0] == '[' && FreeOf(body, {']'})
    ensures HostLength(prefix + (body + ("]" + rest))) == Ok(|prefix| + |body| + 1)
  {
    SpanOfPrefix(prefix, body + ("]" + rest), {'[', ':', '/'});
    SpanOfPrefix(body, "]" + rest, {']'});
  }

  lemma LiteralHost(h: string) returns (prefix: string, body: string)
    requires HostText(h) && Span(h, {'[', ':', '/'}) < |h|
    ensures h == prefix + (body + "]")
    ensures FreeOf(prefix, {'[', ':', '/'}) && body != "" && body[0] == '[' && FreeOf(body, {']'})
  {
    var i := Span(h, {'[', ':', '/'});
    var m := Span(h[i..], {']'});
    SpanIsFree(h, {'[', ':', '/'});
    SpanIsFree(h[i..], {']'});
    prefix, body := h[..i], h[i..][..m];
    CutAround(h[i..], m);
    assert h[i..][m..] == "]";
  }

  lemma HostLengthOf(h: string, rest: string)
    requires HostText(h) && CleanStop(rest)
    ensures HostLength(h + rest) == Ok(|h|)
  {
    if Span(h, {'[', ':', '/'}) == |h| {
      SpanIsFree(h, {'[', ':', '/'});
      assert h[..|h|] == h;
      SpanOfPrefix(h, rest, {'[', ':', '/'});
    } else {
      var prefix, body := LiteralHost(h);
      LiteralLengthOf(prefix, body, rest);
      assert h + rest == prefix + (body + ("]" + rest));
    }
  }

  /** User information as it stands in the content. */
  function UserTokens(content: string, u: UserSplit): string {
    if HasAt(content) then u.username + ":" + u.password + "@" else ""
  }

  lemma SplitUserFields(a: string) returns (i: nat, rest: string, j: nat)
    requires HasAt(a) && SplitUser(a).Ok?
    ensures i == Span(a, {':', '@'}) < |a| && a[i] == ':' && rest == a[i + 1..]
    ensures j == Span(rest, {'@'}) < |rest|
    ensures SplitUser(a).value == UserSplit(a[..i], rest[..j], rest[j + 1..])
  {
    AtIsAhead(a);
    i := Span(a, {':', '@'});
    rest := a[i + 1..];
    j := Span(rest, {'@'});
  }

  lemma SplitUserIsExact(a: string)
    requires HasAt(a) && SplitUser(a).Ok?
    ensures var u := SplitUser(a).value;
            && a == u.username + ":" + u.password + "@" + u.rest
            && FreeOf(u.username, {':', '@'}) && FreeOf(u.password, {'@'})
  {
    var i, rest, j := SplitUserFields(a);
    SpanIsFree(a, {':', '@'});
    SpanIsFree(rest, {'@'});
    CutAround(a, i);
    CutAround(rest, j);
    assert a == a[..i] + (":" + (rest[..j] + ("@" + rest[j + 1..])));
    JoinUser(a[..i], rest[..j], rest[j + 1..]);
  }

  lemma JoinUser(username: string, password: string, rest: string)
    ensures username + (":" + (password + ("@" + rest))) == username + ":" + password + "@" + rest
  {
  }

  lemma SplitUserOf(username: string, password: string, rest: string)
    requires FreeOf(username, {':', '@'}) && FreeOf(password, {'@'})
    ensures var a := username + ":" + password + "@" + rest;
            HasAt(a) && SplitUser(a) == Ok(UserSplit(username, password, rest))
  {
    var tail := password + ("@" + rest);
    var a := username + ":" + password + "@" + rest;
    assert a == username + (":" + tail);
    assert a[|username| + 1 + |password|] == '@';
    HasAtIff(a);
    SpanOfPrefix(username, ":" + tail, {':', '@'});
    assert a[|username| + 1..] == tail;
    SpanOfPrefix(password, "@" + rest, {'@'});
    assert tail[|password| + 1..] == rest;
  }

  lemma UserPartIsExact(content: string)
    requires HasAuthority(content) && UserPart(content).Ok?
    ensures var u := UserPart(content).value;
            && content == "//" + (UserTokens(content, u) + u.rest)
            && FreeOf(u.username, {':', '@'}) && FreeOf(u.password, {'@'})
            && (!HasAt(content) ==> u.username == u.password == "")
  {
    var a := content[2..];
    assert content == "//" + a;
    if HasAt(content) {
      AtAfterSlashes(content);
      SplitUserIsExact(a);
    } else {
      assert "" + a == a;
    }
  }

  /** raw is the port as it stands in the content: nothing, or ':' and digits that denote port. */
  ghost predicate IsPortToken(raw: string, port: nat) {
    if raw == "" then port == 0
    else raw[0] == ':' && |raw| > 1 && AllDigits(raw[1..]) && DecimalValue(raw[1..]) == port < ULONG_LIMIT
  }

  lemma PortPartIsExact(s: string) returns (raw: string)
    requires PortPart(s).Ok?
    ensures IsPortToken(raw, PortPart(s).value.port)
    ensures s == raw + PortPart(s).value.rest
    ensures if raw == "" then s == "" || s[0] != ':'
            else PortPart(s).value.rest == "" || PortPart(s).value.rest[0] == '/'
  {
    if s == "" || s[0] != ':' {
      raw := "";
    } else {
      var n := Span(s[1..], {'/'});
      raw := ":" + s[1..][..n];
      assert raw[1..] == s[1..][..n];
    }
  }

  lemma PortPartOf(port: nat, rest: string)
    requires port < ULONG_LIMIT
    requires rest == "" || rest[0] == '/'
    ensures PortPart(PortText(port) + rest) == Ok(PortSplit(port, rest))
  {
    hide DecimalText, DecimalValue, Span;
    if port == 0 {
      assert PortText(port) + rest == rest;
    } else {
      PrintedPort(port, rest);
      PrintedPortPart(DecimalText(port), port, rest);
    }
  }

  lemma PrintedPort(port: nat, rest: string)
    requires port != 0
    ensures PortText(port) + rest == ":" + (DecimalText(port) + rest)
    ensures DecimalValue(DecimalText(port)) == port
  {
    hide DecimalText, DecimalValue;
    DecimalRoundTrip(port);
  }

  lemma PrintedPortPart(digits: string, port: nat, rest: string)
    requires digits != "" && AllDigits(digits) && DecimalValue(digits) == port < ULONG_LIMIT
    requires rest == "" || rest[0] == '/'
    ensures PortPart(":" + (digits + rest)) == Ok(PortSplit(port, rest))
  {
    hide DecimalText, DecimalValue, Span;
    assert (":" + (digits + rest))[1..] == digits + rest;
    SpanOfPrefix(digits, rest, {'/'});
  }

  lemma PrintedPortIsShortest(raw: string, port: nat)
    requires IsPortToken(raw, port)
    ensures |PortText(port)| <= |raw|
  {
    if port != 0 {
      DecimalTextIsShortest(raw[1..]);
    }
  }

  /** The host scan of this content stops at a ':', at a '/' or at the end (or it fails). */
  predicate HostScanStops(content: string)
    requires HasAuthority(content)
  {
    match UserPart(content)
    case Err(_) => true
    case Ok(u) =>
      match HostLength(u.rest)
      case Err(_) => true
      case Ok(n) => CleanStop(u.rest[n..])
  }

  /** The authority's parts, with their delimiters, are the content again. */
  ghost predicate IsAuthorityOf(content: string, h: Hierarchy, u: UserSplit, port: string) {
    && content == "//" + (UserTokens(content, u) + (h.host + (port + PathText(h))))
    && h.username == u.username && FreeOf(u.username, {':', '@'})
    && h.password == u.password && FreeOf(u.password, {'@'})
    && (!HasAt(content) ==> u.username == u.password == "")
    && HostText(h.host)
    && IsPortToken(port, h.port)
    && (h.rooted || h.path == "")
  }

  lemma PathIsExact(rest: string, content: string)
    requires rest == "" || rest[0] == '/'
    ensures rest == (if rest != "" && rest[0] == '/' then "/" else "") + PathAfter(rest, content)
  {
  }

  lemma HostPartIsExact(s: string, content: string, h: Hierarchy) returns (port: string)
    requires ParseHost(s, content, h.username, h.password) == Ok(h)
    ensures HostLength(s).Ok? && HostText(h.host) && IsPortToken(port, h.port)
    ensures CleanStop(s[HostLength(s).value..]) ==>
              s == h.host + (port + PathText(h)) && (h.rooted || h.path == "")
    ensures !CleanStop(s[HostLength(s).value..]) ==> !h.rooted && h.path == content && h.port == 0
  {
    var n := HostLength(s).value;
    HostIsExact(s);
    var a := s[n..];
    assert s == s[..n] + a;
    port := PortPartIsExact(a);
    var rest := PortPart(a).value.rest;
    if CleanStop(a) {
      PathIsExact(rest, content);
    } else {
      assert rest == a;
    }
  }

  /** In an authority the split parts with their delimiters concatenate back to the content. */
  lemma AuthorityIsLossless(content: string, h: Hierarchy) returns (u: UserSplit, port: string)
    requires HasAuthority(content) && ParseAuthority(content) == Ok(h) && HostScanStops(content)
    ensures UserPart(content) == Ok(u) && IsAuthorityOf(content, h, u, port)
  {
    u := UserPart(content).value;
    UserPartIsExact(content);
    port := HostPartIsExact(u.rest, content, h);
  }
}
