/** The URI class: its fields, the cursor parsers that fill them and its printed forms. */
module Uri {
  import opened Wrappers
  import opened Text
  import opened UriSyntax
  import opened UriTokens
  import opened UriLaws
  import Query

  /** std::string::npos. */
  const NPOS: int := -1

  /** std::string::find_first_of for one character; pos may be NPOS or past the end. */
  function FindFirstOf(s: string, c: char, pos: int): (r: int)
    requires pos >= NPOS
    ensures r == NPOS || (0 <= pos <= r < |s| && s[r] == c)
    ensures pos == NPOS ==> r == NPOS
  {
    if pos == NPOS || pos >= |s| then NPOS
    else
      var n := pos + Span(s[pos..], {c});
      if n == |s| then NPOS else n
  }

  class Uri {
    const category: Category
    const separator: Separator
    var scheme: string
    var content: string
    var username: string
    var password: string
    var host: string
    var port: nat
    var pathIsRooted: bool
    var path: string
    var query: string
    var fragment: string
    var queryDict: map<string, string>

    function Hier(): Hierarchy
      reads this
    {
      Hierarchy(username, password, host, port, pathIsRooted, path)
    }

    function View(): Components
      reads this
    {
      Components(scheme, content, Hier(), query, fragment, queryDict)
    }

    constructor (category: Category, separator: Separator)
      ensures this.category == category && this.separator == separator
      ensures View() == Components("", "", NO_HIERARCHY, "", "", map[])
    {
      this.category, this.separator := category, separator;
      scheme, content, username, password, host := "", "", "", "", "";
      port, pathIsRooted, path, query, fragment, queryDict := 0, false, "", "", "", map[];
    }

    /** Construction from a text; no object is left behind when an exception is raised. */
    static method FromText(text: string, category: Category, separator: Separator) returns (r: Result<Uri, UriError>)
      ensures Parse(text, category, separator) == if r.Ok? then Ok(r.value.View()) else Err(r.error)
      ensures r.Ok? ==> fresh(r.value) && r.value.category == category && r.value.separator == separator
    {
      var uri := new Uri(category, separator);
      var done := uri.Setup(text);
      match done
      case Err(e) => r := Err(e);
      case Ok(_) => r := Ok(uri);
    }

    /** Parses text into a blank object, which then holds exactly the parsed components. */
    method Setup(text: string) returns (r: Result<(), UriError>)
      requires View() == Components("", "", NO_HIERARCHY, "", "", map[])
      modifies this
      ensures Parse(text, category, separator) == if r.Ok? then Ok(View()) else Err(r.error)
    {
      if |text| == 0 {
        return Err(EmptyUri);
      }
      assert text[0..] == text;
      var s := ParseScheme(text, 0);
      if s.Err? {
        return Err(s.error);
      }
      assert text[0..s.value] == text[..s.value];
      r := ParseAfterScheme(text, s.value + 1);
    }

    /** The steps after the scheme and its colon. */
    method ParseAfterScheme(text: string, start: nat) returns (r: Result<(), UriError>)
      requires start <= |text| && View() == Components(scheme, "", NO_HIERARCHY, "", "", map[])
      modifies this
      ensures Assemble(old(scheme), Cut(text[start..]), category, separator)
              == if r.Ok? then Ok(View()) else Err(r.error)
    {
      hide ContentPart, Assemble, Cut, Query.Build, Body, QueryAt, FragmentAt;
      var c := ParseContent(text, start);
      SectionsAt(text, start, start + |content|);
      AssembleAt(scheme, text, start, start + |content|, category, separator);
      if c.Err? {
        return Err(c.error);
      }
      var ok := ParseQueryAndFragment(text, c.value);
      r := if ok then Ok(()) else Err(DuplicateQueryKey);
    }

    /** The steps after the content. */
    method ParseQueryAndFragment(text: string, start: nat) returns (ok: bool)
      requires start <= |text| && (start < |text| ==> text[start] in {'?', '#'})
      requires query == fragment == "" && queryDict == map[]
      modifies this`query, this`fragment, this`queryDict
      ensures query == Body(QueryAt(text, start)) && fragment == Body(FragmentAt(text, start))
      ensures Query.Build(query, separator.Char()) == if ok then Option.Some(queryDict) else Option.None
    {
      hide Query.Build, Query.Collect, QueryLength, Span, Body;
      FragmentStart(text, start);
      var cursor := ParseOptionalQuery(text, start);
      cursor := ParseOptionalFragment(text, cursor);
      ok := InitQueryDictionary();
    }

    method ParseOptionalQuery(text: string, start: nat) returns (end: nat)
      requires start <= |text| && query == ""
      modifies this`query
      ensures start <= end <= |text| && end == start + QueryLength(text[start..])
      ensures query == Body(text[start..end])
    {
      end := start;
      if end != |text| && text[end] == '?' {
        end := ParseQuery(text, end + 1);
        assert text[start..][1..] == text[start + 1..];
      }
    }

    method ParseOptionalFragment(text: string, start: nat) returns (end: nat)
      requires start <= |text| && (start < |text| ==> text[start] == '#') && fragment == ""
      modifies this`fragment
      ensures end == |text| && fragment == Body(text[start..])
    {
      end := start;
      if end != |text| && text[end] == '#' {
        end := ParseFragment(text, end + 1);
      }
    }

    method ParseScheme(text: string, start: nat) returns (r: Result<nat, UriError>)
      requires start <= |text|
      modifies this`scheme
      ensures r.Err? ==> SchemeLength(text[start..]) == Err(r.error)
      ensures r.Ok? ==> start <= r.value < |text| && SchemeLength(text[start..]) == Ok(r.value - start)
                        && scheme == Lower(text[start..r.value])
    {
      var end := start;
      ghost var s := text[start..];
      while end != |text| && text[end] != ':'
        invariant start <= end <= |text|
        invariant forall k :: start <= k < end ==> text[k] != ':' && IsSchemeChar(text[k])
      {
        if !(IsAlnum(text[end]) || text[end] == '-' || text[end] == '+' || text[end] == '.') {
          assert s[..Span(s, {':'})][end - start] == text[end];
          return Err(InvalidSchemeCharacter);
        }
        end := end + 1;
      }
      SpanOfScan(text, start, end, {':'});
      if end == |text| {
        return Err(UnterminatedScheme);
      }
      if start == end {
        return Err(EmptyScheme);
      }
      assert s[..end - start] == text[start..end];
      scheme := Lower(text[start..end]);
      return Ok(end);
    }

    method ParseContent(text: string, start: nat) returns (r: Result<nat, UriError>)
      requires start <= |text| && Hier() == NO_HIERARCHY
      modifies this`content, this`username, this`password, this`host, this`port, this`pathIsRooted, this`path
      ensures content == Cut(text[start..]).content
      ensures start + |content| <= |text| && (r.Ok? ==> r.value == start + |content|)
      ensures ContentPart(content, category) == if r.Ok? then Ok(Hier()) else Err(r.error)
    {
      var end := start;
      while end != |text| && text[end] != '?' && text[end] != '#'
        invariant start <= end <= |text|
        invariant forall k :: start <= k < end ==> text[k] !in {'?', '#'}
      {
        end := end + 1;
      }
      SpanOfScan(text, start, end, {'?', '#'});
      assert text[start..][..end - start] == text[start..end];
      content := text[start..end];
      if category.Hierarchical? && |content| > 0 {
        if HasAuthority(content) {
          var p := ParseAuthorityPath(content);
          if p.Err? {
            return Err(p.error);
          }
        } else if content != "" && content[0] == '/' {
          pathIsRooted := true;
          path := content[1..];
        } else {
          path := content;
        }
      }
      return Ok(end);
    }

    /** The branch of the content parser for a content that has an authority. */
    method ParseAuthorityPath(content: string) returns (r: Result<(), UriError>)
      requires HasAuthority(content) && Hier() == NO_HIERARCHY
      modifies this`username, this`password, this`host, this`port, this`pathIsRooted, this`path
      ensures ParseAuthority(content) == if r.Ok? then Ok(Hier()) else Err(r.error)
    {
      hide ParseAuthority, UserPart, HostLength, PortPart, PathStart;
      var user := ParseUserInfo(content);
      AuthorityFails(content);
      if user.Err? {
        return Err(user.error);
      }
      var h := ParseHost(content, user.value);
      if h.Err? {
        return Err(h.error);
      }
      var p := ParseOptionalPort(content, h.value);
      AuthorityAt(content, user.value, h.value, username, password, p, port);
      if p.Err? {
        return Err(p.error);
      }
      ParsePath(content, p.value);
      return Ok(());
    }

    /** The path step: the path is rooted when the cursor is at a '/'. */
    method ParsePath(content: string, cursor: nat)
      requires cursor <= |content| && !pathIsRooted
      modifies this`pathIsRooted, this`path
      ensures pathIsRooted == (cursor < |content| && content[cursor] == '/')
      ensures path == content[PathStart(content, cursor)..]
    {
      var pathStart := 0;
      if cursor != |content| && content[cursor] == '/' {
        pathIsRooted := true;
        pathStart := cursor + 1;
      }
      if cursor == |content| {
        pathStart := |content|;
      }
      path := content[pathStart..];
    }

    /** The user information step of the authority; afterwards the cursor is past the '@', if there is one. */
    method ParseUserInfo(content: string) returns (r: Result<nat, UriError>)
      requires HasAuthority(content) && username == password == ""
      modifies this`username, this`password
      ensures r.Err? ==> UserPart(content) == Err(r.error)
      ensures r.Ok? ==> 2 <= r.value <= |content|
                        && UserPart(content) == Ok(UserSplit(username, password, content[r.value..]))
    {
      hide SplitUser, HasAt;
      var cursor := 2;
      if HasAt(content) {
        UserInfoAt(content);
        var divider := ParseUsername(content, cursor);
        if divider.Err? {
          return Err(divider.error);
        }
        cursor := ParsePassword(content, divider.value + 1);
        // The cursor is at the '@', so we skip over it.
        cursor := cursor + 1;
      }
      return Ok(cursor);
    }

    /** The port step of the authority; afterwards the cursor is where the path starts. */
    method ParseOptionalPort(content: string, start: nat) returns (r: Result<nat, UriError>)
      requires start <= |content| && port == 0
      modifies this`port
      ensures r.Ok? ==> start <= r.value <= |content|
      ensures PortPart(content[start..]) == if r.Ok? then Ok(PortSplit(port, content[r.value..])) else Err(r.error)
    {
      if start != |content| && content[start] == ':' {
        r := ParsePort(content, start + 1);
      } else {
        r := Ok(start);
      }
    }

    /** The scan has no end check: the '@' that the caller found stops it inside the content. */
    method ParseUsername(content: string, start: nat) returns (r: Result<nat, UriError>)
      requires start <= |content| && HasAt(content[start..])
      modifies this`username
      ensures var end := start + Span(content[start..], {':', '@'});
              && end < |content|
              && (if content[end] == '@' then r == Err(UsernameWithoutPassword)
                  else r == Ok(end) && username == content[start..end])
    {
      var end := start;
      ghost var k := start + Span(content[start..], {'@'});
      while content[end] != ':'
        invariant start <= end <= k
        invariant forall i :: start <= i < end ==> content[i] !in {':', '@'}
        decreases k - end
      {
        if content[end] == '@' {
          SpanOfScan(content, start, end, {':', '@'});
          return Err(UsernameWithoutPassword);
        }
        end := end + 1;
      }
      SpanOfScan(content, start, end, {':', '@'});
      username := content[start..end];
      return Ok(end);
    }

    method ParsePassword(content: string, start: nat) returns (end: nat)
      requires start <= |content| && HasAt(content[start..])
      modifies this`password
      ensures start <= end < |content| && end == start + Span(content[start..], {'@'})
      ensures password == content[start..end]
    {
      end := start;
      ghost var k := start + Span(content[start..], {'@'});
      while content[end] != '@'
        invariant start <= end <= k
        invariant forall i :: start <= i < end ==> content[i] != '@'
        decreases k - end
      {
        end := end + 1;
      }
      SpanOfScan(content, start, end, {'@'});
      password := content[start..end];
    }

    method ParseHost(content: string, start: nat) returns (r: Result<nat, UriError>)
      requires start <= |content|
      modifies this`host
      ensures r.Err? ==> HostLength(content[start..]) == Err(r.error)
      ensures r.Ok? ==> start <= r.value <= |content| && HostLength(content[start..]) == Ok(r.value - start)
                        && host == content[start..r.value]
    {
      hide HostLength, Span;
      var end := start;
      while end != |content|
        invariant start <= end <= |content|
        invariant forall k :: start <= k < end ==> content[k] !in {'[', ':', '/'}
      {
        if content[end] == '[' {
          ghost var open := end;
          end := SkipLiteral(content, end);
          LiteralAt(content, start, open, end);
          if end == |content| {
            return Err(UnterminatedIpLiteral);
          }
          end := end + 1;
          host := content[start..end];
          return Ok(end);
        } else if content[end] == ':' || content[end] == '/' {
          break;
        } else {
          end := end + 1;
        }
      }
      HostAt(content, start, end);
      host := content[start..end];
      return Ok(end);
    }

    /** The inner scan of an IP literal, up to its closing bracket. */
    method SkipLiteral(content: string, start: nat) returns (end: nat)
      requires start <= |content|
      ensures start <= end <= |content| && end == start + Span(content[start..], {']'})
    {
      end := start;
      while end != |content| && content[end] != ']'
        invariant start <= end <= |content|
        invariant forall k :: start <= k < end ==> content[k] != ']'
      {
        end := end + 1;
      }
      SpanOfScan(content, start, end, {']'});
    }

    method ParsePort(content: string, start: nat) returns (r: Result<nat, UriError>)
      requires 0 < start <= |content| && content[start - 1] == ':'
      modifies this`port
      ensures r.Err? ==> PortPart(content[start - 1..]) == Err(r.error)
      ensures r.Ok? ==> start <= r.value <= |content|
                        && PortPart(content[start - 1..]) == Ok(PortSplit(port, content[r.value..]))
    {
      hide DecimalValue, Span;
      var end := start;
      ghost var s := content[start - 1..];
      assert s[1..] == content[start..];
      while end != |content| && content[end] != '/'
        invariant start <= end <= |content|
        invariant forall k :: start <= k < end ==> content[k] != '/' && IsDigit(content[k])
      {
        if !IsDigit(content[end]) {
          ScanGoesOn(content, start, end, {'/'});
          assert s[1..][..Span(s[1..], {'/'})][end - start] == content[end];
          return Err(InvalidPortCharacter);
        }
        end := end + 1;
      }
      SpanOfScan(content, start, end, {'/'});
      assert s[1..][..end - start] == content[start..end];
      assert s[1..][end - start..] == content[end..];
      var value := PortValue(content[start..end]);
      if value.Err? {
        return Err(value.error);
      }
      port := value.value;
      return Ok(end);
    }

    method ParseQuery(text: string, start: nat) returns (end: nat)
      requires start <= |text|
      modifies this`query
      ensures start <= end <= |text| && end == start + Span(text[start..], {'#'})
      ensures query == text[start..end]
    {
      end := start;
      while end != |text| && text[end] != '#'
        invariant start <= end <= |text|
        invariant forall k :: start <= k < end ==> text[k] != '#'
      {
        end := end + 1;
      }
      SpanOfScan(text, start, end, {'#'});
      query := text[start..end];
    }

    method ParseFragment(text: string, start: nat) returns (end: nat)
      requires start <= |text|
      modifies this`fragment
      ensures end == |text| && fragment == text[start..]
    {
      fragment := text[start..];
      end := |text|;
    }

    /** Fills the dictionary stanza by stanza; ok is false when a key repeats. */
    method InitQueryDictionary() returns (ok: bool)
      requires queryDict == map[]
      modifies this`queryDict
      ensures Query.Build(query, separator.Char()) == if ok then Option.Some(queryDict) else Option.None
    {
      hide Query.Split, Query.EntryOf, Query.Collect, FindFirstOf;
      Query.CollectNothing();
      if query == "" {
        return true;
      }
      var sep := separator.Char();
      ghost var stanzas := Query.Split(query, sep);
      ghost var entries := Query.EntriesOf(stanzas);
      ghost var i := 0;
      var carat: int := 0;
      var stanzaEnd := FindFirstOf(query, sep, 0);
      assert query[0..] == query && stanzas[0..] == stanzas;
      // The program's do-while: the first pass is unconditional, and carat is a position then.
      while stanzaEnd != NPOS || carat != NPOS
        invariant carat == NPOS || 0 <= carat <= |query|
        invariant stanzaEnd == FindFirstOf(query, sep, carat)
        invariant i <= |stanzas|
        invariant carat == NPOS ==> i == |stanzas|
        invariant carat != NPOS ==> stanzas[i..] == Query.Split(query[carat..], sep)
        invariant Query.Collect(entries[..i]) == Option.Some(queryDict)
        decreases if carat == NPOS then 0 else 1 + |query| - carat
      {
        var stanza := if stanzaEnd != NPOS then query[carat..stanzaEnd] else query[carat..];
        SplitStep(query, sep, carat, stanzas, i);
        var key, value := ParseStanza(stanza);
        Query.CollectStep(entries, i);
        if key in queryDict {
          Query.CollectPrefix(entries, i + 1);
          return false;
        }
        queryDict := queryDict[key := value];
        i := i + 1;
        carat := if stanzaEnd != NPOS then stanzaEnd + 1 else NPOS;
        stanzaEnd := FindFirstOf(query, sep, carat);
      }
      assert entries[..i] == entries;
      return true;
    }

    /** Key and value of one stanza. */
    method ParseStanza(stanza: string) returns (key: string, value: string)
      ensures Query.EntryOf(stanza) == Query.Entry(key, value)
    {
      assert stanza[0..] == stanza;
      var divider := FindFirstOf(stanza, '=', 0);
      key := if divider == NPOS then stanza else stanza[..divider];
      value := "";
      if divider != NPOS {
        value := stanza[divider + 1..];
      }
    }

    /** The full text of the URI. */
    function ToString(): string
      reads this
    {
      Print(View(), category)
    }

    /** The path with its query and fragment. */
    function GetResource(): string
      reads this
    {
      Resource(View())
    }
  }

  /** The text of a URI object parses to the object's components exactly when they are well formed. */
  lemma ToStringReadsBackIff(u: Uri)
    ensures var r := Parse(u.ToString(), u.category, u.separator);
            r.Ok? && SameComponents(r.value, u.View(), u.category) <==> WellFormed(u.View(), u.category, u.separator)
  {
    RoundTripIff(u.View(), u.category, u.separator);
  }

  /** The resource is what the text ends with: the path with its '/' if it is rooted, then the query with
      its '?' and the fragment with its '#', if there are any. */
  lemma ResourceIsRest(u: Uri)
    ensures |u.GetResource()| <= |u.ToString()|
    ensures u.ToString()[|u.ToString()| - |u.GetResource()|..] == u.GetResource()
    ensures FreeOf(u.path, {'?', '#'}) && FreeOf(u.query, {'#'}) ==>
              Cut(u.GetResource()) == Sections((if u.pathIsRooted then "/" else "") + u.path,
                                               if u.query == "" then "" else "?" + u.query,
                                               if u.fragment == "" then "" else "#" + u.fragment)
  {
    hide Cut, UserText, PortText;
    var c, r := u.View(), u.GetResource();
    if FreeOf(u.path, {'?', '#'}) && FreeOf(u.query, {'#'}) {
      var cut := Sections(PathText(c.hier), QueryText(c.query), FragmentText(c.fragment));
      FreeOfConcat(if u.pathIsRooted then "/" else "", u.path, {'?', '#'});
      CutIsUnique(r, cut);
    }
    var front := c.scheme + ":" +
      (if u.category.Hierarchical? then "//" + UserText(c.hier) + c.hier.host + PortText(c.hier.port) else c.content);
    assert u.ToString() == front + r;
  }

  /** The query that starts at a position of text, with its '?'. */
  function QueryAt(text: string, start: nat): string
    requires start <= |text|
  {
    text[start..start + QueryLength(text[start..])]
  }

  /** The fragment after the query that starts at a position of text, with its '#'. */
  function FragmentAt(text: string, start: nat): string
    requires start <= |text|
  {
    text[start + QueryLength(text[start..])..]
  }

  lemma FragmentStart(text: string, start: nat)
    requires start <= |text| && (start < |text| ==> text[start] in {'?', '#'})
    ensures var b := start + QueryLength(text[start..]); b < |text| ==> text[b] == '#'
  {
    QueryStop(text[start..]);
  }

  lemma SectionsAt(text: string, start: nat, a: nat)
    requires start <= a <= |text| && a == start + |Cut(text[start..]).content|
    ensures Cut(text[start..]) == Sections(text[start..a], QueryAt(text, a), FragmentAt(text, a))
    ensures a < |text| ==> text[a] in {'?', '#'}
  {
    hide Span, QueryLength;
    SliceOfSlice(text, start, a);
    SliceOfSlice(text, a, a + QueryLength(text[a..]));
  }

  /** The components of a text from the cursor positions around its content. */
  lemma AssembleAt(scheme: string, text: string, start: nat, a: nat, category: Category, separator: Separator)
    requires start <= a <= |text| && a == start + |Cut(text[start..]).content|
    ensures var cut := Cut(text[start..]);
            var query := Body(QueryAt(text, a));
            Assemble(scheme, cut, category, separator) ==
            match ContentPart(cut.content, category)
            case Err(e) => Err(e)
            case Ok(hier) =>
              match Query.Build(query, separator.Char())
              case None => Err(DuplicateQueryKey)
              case Some(dict) => Ok(Components(scheme, cut.content, hier, query, Body(FragmentAt(text, a)), dict))
  {
    hide ContentPart, Query.Build;
    SectionsAt(text, start, a);
  }

  /** A scan that has met no stop up to and with end stops behind it. */
  lemma ScanGoesOn(s: string, start: nat, end: nat, stops: set<char>)
    requires start <= end < |s| && forall k :: start <= k <= end ==> s[k] !in stops
    ensures Span(s[start..], stops) > end - start
  {
    hide Span;
    assert forall k :: start <= k <= end ==> s[start..][k - start] == s[k];
  }

  lemma SliceOfSlice(s: string, i: nat, j: nat)
    requires i <= j <= |s|
    ensures s[i..][j - i..] == s[j..] && s[i..][..j - i] == s[i..j]
  {
  }

  /** A host scan that met a '[' at open, whose literal scan stopped at end. */
  lemma LiteralAt(content: string, start: nat, open: nat, end: nat)
    requires start <= open <= end <= |content| && open < |content| && content[open] == '['
    requires forall k :: start <= k < open ==> content[k] !in {'[', ':', '/'}
    requires end == open + Span(content[open..], {']'})
    ensures HostLength(content[start..]) == if end == |content| then Err(UnterminatedIpLiteral) else Ok(end + 1 - start)
  {
    SpanOfScan(content, start, open, {'[', ':', '/'});
    SliceOfSlice(content, start, open);
  }

  /** A host scan that stopped at end without a literal. */
  lemma HostAt(content: string, start: nat, end: nat)
    requires start <= end <= |content| && (end < |content| ==> content[end] in {':', '/'})
    requires forall k :: start <= k < end ==> content[k] !in {'[', ':', '/'}
    ensures HostLength(content[start..]) == Ok(end - start)
  {
    SpanOfScan(content, start, end, {'[', ':', '/'});
  }

  lemma AuthorityFails(content: string)
    requires HasAuthority(content)
    ensures UserPart(content).Err? ==> ParseAuthority(content) == Err(UserPart(content).error)
    ensures UserPart(content).Ok? && HostLength(UserPart(content).value.rest).Err? ==>
              ParseAuthority(content) == Err(HostLength(UserPart(content).value.rest).error)
  {
    hide UserPart, HostLength;
  }

  /** Where the path starts, given where host and port end. */
  function PathStart(content: string, cursor: nat): (start: nat)
    requires cursor <= |content|
    ensures start <= |content|
  {
    if cursor == |content| then |content| else if content[cursor] == '/' then cursor + 1 else 0
  }

  /** The authority from the cursor positions of its three scans. */
  lemma AuthorityAt(content: string, a: nat, b: nat, username: string, password: string,
                    p: Result<nat, UriError>, port: nat)
    requires HasAuthority(content) && a <= b <= |content| && (p.Ok? ==> p.value <= |content|)
    requires UserPart(content) == Ok(UserSplit(username, password, content[a..]))
    requires HostLength(content[a..]) == Ok(b - a)
    requires PortPart(content[b..]) == if p.Ok? then Ok(PortSplit(port, content[p.value..])) else Err(p.error)
    ensures p.Err? ==> ParseAuthority(content) == Err(p.error)
    ensures p.Ok? ==>
              ParseAuthority(content)
              == Ok(Hierarchy(username, password, content[a..b], port, p.value < |content| && content[p.value] == '/',
                              content[PathStart(content, p.value)..]))
  {
    var s := content[a..];
    SliceOfSlice(content, a, b);
    assert ParseAuthority(content) == ParseHost(s, content, username, password);
    if p.Ok? {
      var rest := content[p.value..];
      assert PathAfter(rest, content) == content[PathStart(content, p.value)..];
    }
  }

  /** User information found by two scans over the content. */
  lemma UserInfoAt(content: string)
    requires HasAuthority(content) && HasAt(content)
    ensures HasAt(content[2..])
    ensures var i := 2 + Span(content[2..], {':', '@'});
            && i < |content|
            && (if content[i] == '@' then UserPart(content) == Err(UsernameWithoutPassword)
                else
                  && HasAt(content[i + 1..])
                  && var j := i + 1 + Span(content[i + 1..], {'@'});
                  && j < |content|
                  && UserPart(content) == Ok(UserSplit(content[2..i], content[i + 1..j], content[j + 1..])))
  {
    hide Span;
    AtAfterSlashes(content);
    var a := content[2..];
    AtIsAhead(a);
    var n := Span(a, {':', '@'});
    if a[n] == ':' {
      var rest := content[n + 3..];
      assert a[n + 1..] == rest;
      UserSlices(content, n, Span(rest, {'@'}));
    }
  }

  lemma UserSlices(content: string, n: nat, m: nat)
    requires n + 3 + m < |content|
    ensures content[2..][..n] == content[2..n + 2]
    ensures content[n + 3..][..m] == content[n + 3..n + 3 + m]
    ensures content[n + 3..][m + 1..] == content[n + 4 + m..]
  {
  }

  lemma SplitStep(query: string, sep: char, carat: nat, stanzas: seq<string>, i: nat)
    requires carat <= |query| && i <= |stanzas| && stanzas[i..] == Query.Split(query[carat..], sep)
    ensures i < |stanzas|
    ensures var end := FindFirstOf(query, sep, carat);
            if end == NPOS then i + 1 == |stanzas| && stanzas[i] == query[carat..]
            else
              && carat <= end && stanzas[i] == query[carat..end]
              && stanzas[i + 1..] == Query.Split(query[end + 1..], sep)
  {
    var s := query[carat..];
    var n := Span(s, {sep});
    var pieces := stanzas[i..];
    assert pieces[0] == stanzas[i] && pieces[1..] == stanzas[i + 1..];
    if n < |s| {
      assert s[..n] == query[carat..carat + n];
      assert s[n + 1..] == query[carat + n + 1..];
    }
  }
}
