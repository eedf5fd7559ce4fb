/**
 URI texts and their components: what a text parses to and how components are
 printed. The component split is that of section 3 of RFC 3986, with the
 program's own treatment of user information, IP literals and ports.
 */
module UriSyntax {
  import opened Machine
  import opened Wrappers
  import opened Text
  import Query

  datatype Category = Hierarchical | NonHierarchical

  datatype Separator = Ampersand | Semicolon {
    function Char(): char {
      if Ampersand? then '&' else ';'
    }
  }

  /** The exceptions that parsing a URI can raise. */
  datatype UriError =
    | EmptyUri
    | InvalidSchemeCharacter
    | UnterminatedScheme
    | EmptyScheme
    | UsernameWithoutPassword
    | UnterminatedIpLiteral
    | InvalidPortCharacter
    | EmptyPort
    | PortOutOfRange
    | DuplicateQueryKey

  /** The components of the part between the scheme and the query. */
  datatype Hierarchy = Hierarchy(
    username: string, password: string, host: string, port: nat, rooted: bool, path: string)

  datatype Components = Components(
    scheme: string, content: string, hier: Hierarchy, query: string, fragment: string, dict: map<string, string>)

  const NO_HIERARCHY := Hierarchy("", "", "", 0, false, "")

  predicate IsAlnum(c: char) {
    'a' <= c <= 'z' || 'A' <= c <= 'Z' || IsDigit(c)
  }

  predicate IsSchemeChar(c: char) {
    IsAlnum(c) || c == '-' || c == '+' || c == '.'
  }

  predicate IsSchemeText(s: string) {
    forall k :: 0 <= k < |s| ==> IsSchemeChar(s[k])
  }

  function ToLower(c: char): char {
    if 'A' <= c <= 'Z' then c + 32 as char else c
  }

  function Lower(s: string): (r: string)
    ensures |r| == |s|
    ensures forall k :: 0 <= k < |s| ==> r[k] == ToLower(s[k])
  {
    if s == "" then "" else [ToLower(s[0])] + Lower(s[1..])
  }

  /** Where the scheme of text ends. */
  function SchemeLength(text: string): (r: Result<nat, UriError>)
    ensures r.Ok? ==> 0 < r.value < |text| && text[r.value] == ':'
  {
    var n := Span(text, {':'});
    if !IsSchemeText(text[..n]) then Err(InvalidSchemeCharacter)
    else if n == |text| then Err(UnterminatedScheme)
    else if n == 0 then Err(EmptyScheme)
    else Ok(n)
  }

  /** The value std::stoul gives for a run of digits. */
  function PortValue(digits: string): (r: Result<nat, UriError>)
    requires AllDigits(digits)
    ensures r.Ok? ==> r.value < ULONG_LIMIT
  {
    if digits == "" then Err(EmptyPort)
    else if DecimalValue(digits) >= ULONG_LIMIT then Err(PortOutOfRange)
    else Ok(DecimalValue(digits))
  }

  datatype UserSplit = UserSplit(username: string, password: string, rest: string)

  /** content.compare(0, 2, "//") == 0: an authority is present. */
  predicate HasAuthority(content: string) {
    |content| >= 2 && content[0] == '/' && content[1] == '/'
  }

  /** content.find_first_of('@') != npos. */
  predicate HasAt(s: string) {
    Span(s, {'@'}) < |s|
  }

  lemma HasAtIff(s: string)
    ensures HasAt(s) <==> '@' in s
  {
    if '@' in s {
      SpanStops(s, '@', {'@'});
    }
  }

  lemma HasAtConcat(s: string, t: string)
    ensures HasAt(s + t) <==> HasAt(s) || HasAt(t)
  {
    HasAtIff(s);
    HasAtIff(t);
    HasAtIff(s + t);
  }

  /** An '@' in the authority lies at or after the place where the username scan stops. */
  lemma AtIsAhead(a: string)
    requires HasAt(a)
    ensures var i := Span(a, {':', '@'}); i < |a| && (a[i] != '@' ==> HasAt(a[i + 1..]))
  {
    hide HasAt;
    HasAtIff(a);
    SpanStops(a, '@', {':', '@'});
    var i := Span(a, {':', '@'});
    PrefixHasNoAt(a);
    CutAround(a, i);
    HasAtConcat(a[..i], [a[i]] + a[i + 1..]);
    HasAtConcat([a[i]], a[i + 1..]);
    HasAtIff([a[i]]);
  }

  lemma PrefixHasNoAt(a: string)
    ensures !HasAt(a[..Span(a, {':', '@'})])
  {
    SpanIsFree(a, {':', '@'});
    HasAtIff(a[..Span(a, {':', '@'})]);
  }

  /** Splits user information off an authority that has an '@' in it. */
  function SplitUser(a: string): (r: Result<UserSplit, UriError>)
    requires HasAt(a)
  {
    AtIsAhead(a);
    var i := Span(a, {':', '@'});
    if a[i] == '@' then Err(UsernameWithoutPassword)
    else
      var rest := a[i + 1..];
      var j := Span(rest, {'@'});
      Ok(UserSplit(a[..i], rest[..j], rest[j + 1..]))
  }

  lemma AtAfterSlashes(content: string)
    requires HasAuthority(content)
    ensures HasAt(content) <==> HasAt(content[2..])
  {
    HasAtIff(content);
    HasAtIff(content[2..]);
    assert content == ['/', '/'] + content[2..];
  }

  /** User information, when the content has an '@' anywhere, and what follows it. */
  function UserPart(content: string): Result<UserSplit, UriError>
    requires HasAuthority(content)
  {
    AtAfterSlashes(content);
    var a := content[2..];
    if HasAt(content) then SplitUser(a) else Ok(UserSplit("", "", a))
  }

  /** Where a host ends: after a bracketed literal, or before the first ':' or '/'. */
  function HostLength(s: string): (r: Result<nat, UriError>)
    ensures r.Ok? ==> r.value <= |s|
  {
    var i := Span(s, {'[', ':', '/'});
    if i < |s| && s[i] == '[' then
      var j := i + Span(s[i..], {']'});
      if j == |s| then Err(UnterminatedIpLiteral) else Ok(j + 1)
    else Ok(i)
  }

  datatype PortSplit = PortSplit(port: nat, rest: string)

  /** The optional port at the start of s and what follows it. */
  function PortPart(s: string): Result<PortSplit, UriError> {
    if s == "" || s[0] != ':' then Ok(PortSplit(0, s))
    else
      var n := Span(s[1..], {'/'});
      var digits := s[1..][..n];
      if !AllDigits(digits) then Err(InvalidPortCharacter)
      else
        match PortValue(digits)
        case Err(e) => Err(e)
        case Ok(port) => Ok(PortSplit(port, s[1..][n..]))
  }

  /** The path that follows host and port. When the host scan stopped after a
      literal at something else, the path is all of the content. */
  function PathAfter(rest: string, content: string): string {
    if rest == "" then "" else if rest[0] == '/' then rest[1..] else content
  }

  /** Host, port and path of an authority without its user information. */
  function ParseHost(s: string, content: string, username: string, password: string): Result<Hierarchy, UriError> {
    match HostLength(s)
    case Err(e) => Err(e)
    case Ok(n) =>
      match PortPart(s[n..])
      case Err(e) => Err(e)
      case Ok(p) =>
        Ok(Hierarchy(username, password, s[..n], p.port, p.rest != "" && p.rest[0] == '/', PathAfter(p.rest, content)))
  }

  /** An authority followed by a path; the content has an authority. */
  function ParseAuthority(content: string): Result<Hierarchy, UriError>
    requires HasAuthority(content)
  {
    match UserPart(content)
    case Err(e) => Err(e)
    case Ok(u) => ParseHost(u.rest, content, u.username, u.password)
  }

  function ParseHierarchy(content: string): Result<Hierarchy, UriError> {
    if HasAuthority(content) then ParseAuthority(content)
    else if content != "" && content[0] == '/' then Ok(NO_HIERARCHY.(rooted := true, path := content[1..]))
    else Ok(NO_HIERARCHY.(path := content))
  }

  /** Content, query with its '?' and fragment with its '#'. */
  datatype Sections = Sections(content: string, rawQuery: string, rawFragment: string)

  /** Length of the optional query at the start of s, its '?' included. */
  function QueryLength(s: string): (n: nat)
    ensures n <= |s|
  {
    if s != "" && s[0] == '?' then 1 + Span(s[1..], {'#'}) else 0
  }

  /** Cuts what follows the scheme into content, query and fragment. */
  function Cut(s: string): Sections {
    var n := Span(s, {'?', '#'});
    var m := QueryLength(s[n..]);
    Sections(s[..n], s[n..][..m], s[n..][m..])
  }

  /** A query or fragment without the character that introduces it. */
  function Body(raw: string): string {
    if raw == "" then "" else raw[1..]
  }

  /** The hierarchical components of a content; a non-hierarchical URI has none. */
  function ContentPart(content: string, category: Category): Result<Hierarchy, UriError> {
    if category.Hierarchical? then ParseHierarchy(content) else Ok(NO_HIERARCHY)
  }

  /** The components of a scheme and what follows it. */
  function Assemble(scheme: string, cut: Sections, category: Category, separator: Separator)
    : Result<Components, UriError>
  {
    var query := Body(cut.rawQuery);
    match ContentPart(cut.content, category)
    case Err(e) => Err(e)
    case Ok(hier) =>
      match Query.Build(query, separator.Char())
      case None => Err(DuplicateQueryKey)
      case Some(dict) => Ok(Components(scheme, cut.content, hier, query, Body(cut.rawFragment), dict))
  }

  /** What constructing a URI from a text gives. */
  function Parse(text: string, category: Category, separator: Separator): Result<Components, UriError> {
    if text == "" then Err(EmptyUri)
    else
      match SchemeLength(text)
      case Err(e) => Err(e)
      case Ok(n) => Assemble(Lower(text[..n]), Cut(text[n + 1..]), category, separator)
  }

  function UserText(h: Hierarchy): string {
    if h.username == "" || h.password == "" then "" else h.username + ":" + h.password + "@"
  }

  function PortText(port: nat): string {
    if port == 0 then "" else ":" + DecimalText(port)
  }

  function PathText(h: Hierarchy): string {
    (if h.rooted then "/" else "") + h.path
  }

  function QueryText(query: string): string {
    if query == "" then "" else "?" + query
  }

  function FragmentText(fragment: string): string {
    if fragment == "" then "" else "#" + fragment
  }

  /** Path, query and fragment as printed. */
  function Resource(c: Components): string {
    PathText(c.hier) + QueryText(c.query) + FragmentText(c.fragment)
  }

  /** The printed form, recomposed as in section 5.3 of RFC 3986. */
  function Print(c: Components, category: Category): string {
    c.scheme + ":" +
    (if category.Hierarchical? then "//" + UserText(c.hier) + c.hier.host + PortText(c.hier.port) else c.content) +
    Resource(c)
  }
}
