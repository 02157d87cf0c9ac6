/**
 * GitHub repository URLs: `parse_github_url`, which extracts the owner and
 * repository name from whatever the user typed, and the stricter request
 * validator `SummarizeRequest.validate_github_url`.
 *
 * `parse_github_url` leans on Python's `urllib.parse.urlparse`; the part of
 * it the function depends on (splitting off the scheme, the network
 * location, the fragment, the query and the `;` parameters, and reading the
 * host name) is modelled here after CPython 3.12.
 */
module GithubUrl {
  import opened Wrappers
  import opened Text
  import opened Sequences

  /** `GitHubFetchError`: a message and an HTTP status, 500 unless stated. */
  datatype GitHubFetchError = GitHubFetchError(message: string, status: int := 500)

  /** What `parse_github_url` raises: its own error, or the `ValueError`
      that `urlparse` raises and the function lets through. */
  datatype ParseError = FetchFailed(fetch: GitHubFetchError) | InvalidUrl(message: string)

  const NOT_GITHUB: string := "URL must be a github.com repository URL."
  const NO_OWNER_REPO: string :=
    "Could not extract owner/repo from the URL. Expected format: https://github.com/{owner}/{repo}"

  function BadNames(owner: string, repo: string): (m: string)
    ensures StartsWith(m, "Invalid owner or repo name: ")
  {
    "Invalid owner or repo name: " + owner + "/" + repo
  }

  const INVALID_IPV6: string := "Invalid IPv6 URL"
  const INVALID_IPVFUTURE: string := "IPvFuture address is invalid"
  const IPV4_IN_BRACKETS: string := "An IPv4 address cannot be in brackets"
  const NOT_AN_ADDRESS: string := "does not appear to be an IPv4 or IPv6 address"

  // ---------------------------------------------------------------------
  // urlsplit / urlparse
  // ---------------------------------------------------------------------

  /** A C0 control character or space: what `urlsplit` strips on the left. */
  predicate IsC0OrSpace(c: char) {
    c <= ' '
  }

  function LStripC0(s: string): (r: string)
    ensures |r| <= |s| && r == s[|s| - |r|..]
    ensures r == [] || !IsC0OrSpace(r[0])
    ensures forall i :: 0 <= i < |s| - |r| ==> IsC0OrSpace(s[i])
  {
    if |s| > 0 && IsC0OrSpace(s[0]) then LStripC0(s[1..]) else s
  }

  /** Tab, carriage return and line feed, which `urlsplit` deletes anywhere. */
  predicate IsUnsafe(c: char) {
    c == '\t' || c == '\r' || c == '\n'
  }

  predicate Safe(s: string) {
    forall i :: 0 <= i < |s| ==> !IsUnsafe(s[i])
  }

  function RemoveUnsafe(s: string): (r: string)
    ensures Safe(r) && |r| <= |s|
    ensures Safe(s) ==> r == s
  {
    if |s| == 0 then []
    else if IsUnsafe(s[0]) then RemoveUnsafe(s[1..])
    else [s[0]] + RemoveUnsafe(s[1..])
  }

  predicate IsAsciiLetter(c: char) {
    'a' <= c <= 'z' || 'A' <= c <= 'Z'
  }

  predicate IsSchemeChar(c: char) {
    IsAsciiLetter(c) || '0' <= c <= '9' || c == '+' || c == '-' || c == '.'
  }

  predicate AllSchemeChars(s: string) {
    forall i :: 0 <= i < |s| ==> IsSchemeChar(s[i])
  }

  /** The scheme is everything before the first `:` when that is non-empty,
      starts with a letter and uses only scheme characters; it is lower-cased
      and removed together with the colon. */
  function SplitScheme(url: string): (r: (string, string))
    ensures || (r.0 == [] && r.1 == url)
            || (0 < |r.0| < |url| && url[|r.0|] == ':' && ':' !in url[..|r.0|]
                && IsAsciiLetter(url[0]) && AllSchemeChars(url[..|r.0|])
                && r.0 == Lower(url[..|r.0|]) && r.1 == url[|r.0| + 1..])
  {
    var i := FindChar(url, ':');
    if i > 0 && IsAsciiLetter(url[0]) && AllSchemeChars(url[..i]) then (Lower(url[..i]), url[i + 1..])
    else ([], url)
  }

  predicate EndsAuthority(c: char) {
    c == '/' || c == '?' || c == '#'
  }

  /** The first `/`, `?` or `#` at or after `from`, or the end: the earliest
      of the three `find`s of `_splitnetloc`. */
  function AuthorityEnd(s: string, from: nat): (d: nat)
    requires from <= |s|
    ensures from <= d <= |s|
    ensures forall i :: from <= i < d ==> !EndsAuthority(s[i])
    ensures d < |s| ==> EndsAuthority(s[d])
    decreases |s| - from
  {
    if from == |s| || EndsAuthority(s[from]) then from else AuthorityEnd(s, from + 1)
  }

  /** `_splitnetloc(url, 2)`: the network location after `//`, and the rest. */
  function SplitNetloc(url: string): (r: (string, string))
    requires StartsWith(url, "//")
    ensures url == "//" + r.0 + r.1
    ensures forall i :: 0 <= i < |r.0| ==> !EndsAuthority(r.0[i])
    ensures r.1 == [] || EndsAuthority(r.1[0])
  {
    var d := AuthorityEnd(url, 2);
    assert url == url[..2] + url[2..d] + url[d..];
    (url[2..d], url[d..])
  }

  /** The part of `s` after its last `c` (all of `s` when there is none):
      `s.rpartition(c)[2]`. */
  function AfterLast(s: string, c: char): (r: string)
    ensures c !in r && EndsWith(s, r)
    ensures c !in s ==> r == s
  {
    var i := RFindChar(s, c);
    s[i + 1..]
  }

  /** The part of `s` before its first `c`: `s.partition(c)[0]`. */
  function Before(s: string, c: char): (r: string)
    ensures c !in r && StartsWith(s, r)
    ensures c !in s ==> r == s
  {
    var i := FindChar(s, c);
    if i < 0 then s else s[..i]
  }

  /** The part of `s` after its first `c`, empty when there is none:
      `s.partition(c)[2]`. */
  function After(s: string, c: char): (r: string)
    ensures c in s ==> s == Before(s, c) + [c] + r
    ensures c !in s ==> r == []
  {
    var i := FindChar(s, c);
    if i < 0 then []
    else
      assert s == s[..i] + [c] + s[i + 1..];
      s[i + 1..]
  }

  predicate IsHexDigit(c: char) {
    '0' <= c <= '9' || 'a' <= c <= 'f' || 'A' <= c <= 'F'
  }

  /** The end of the run of hexadecimal digits starting at `from`. */
  function HexRunEnd(s: string, from: nat): (e: nat)
    requires from <= |s|
    ensures from <= e <= |s|
    ensures forall i :: from <= i < e ==> IsHexDigit(s[i])
    ensures e < |s| ==> !IsHexDigit(s[e])
    decreases |s| - from
  {
    if from == |s| || !IsHexDigit(s[from]) then from else HexRunEnd(s, from + 1)
  }

  /** `v`, hexadecimal digits, a dot and at least one more character: the
      IPvFuture form of section 3.2.2 of RFC 3986 as CPython checks it. */
  predicate IsIpvFuture(h: string) {
    |h| > 0 && h[0] == 'v' &&
    var e := HexRunEnd(h, 1);
    e > 1 && e + 1 < |h| && h[e] == '.'
  }

  /** One octet of `ipaddress.IPv4Address`: one to three ASCII digits
      without a leading zero, at most 255. */
  predicate IsOctet(o: string) {
    1 <= |o| <= 3 && IsDigits(o) && (o == "0" || o[0] != '0') && DigitsValue(o) <= 255
  }

  predicate AllOctets(os: seq<string>) {
    |os| == 0 || (IsOctet(os[0]) && AllOctets(os[1..]))
  }

  /** `ipaddress.IPv4Address`: exactly four octets separated by dots. */
  predicate IsIpv4(h: string) {
    var octets := Split(h, '.');
    |octets| == 4 && AllOctets(octets)
  }

  predicate AllHex(g: string) {
    |g| == 0 || (IsHexDigit(g[0]) && AllHex(g[1..]))
  }

  /** One group of an IPv6 address: one to four hexadecimal digits. */
  predicate IsHextet(g: string) {
    1 <= |g| <= 4 && AllHex(g)
  }

  predicate AllHextets(gs: seq<string>) {
    |gs| == 0 || (IsHextet(gs[0]) && AllHextets(gs[1..]))
  }

  /** The positions, from `i` on, of the empty groups strictly between the
      first and the last: each stands for a `::`. */
  function GapsFrom(groups: seq<string>, i: nat): (r: seq<nat>)
    ensures forall j :: 0 <= j < |r| ==> i <= r[j] < |groups| - 1 && groups[r[j]] == []
    decreases |groups| - i
  {
    if i + 1 >= |groups| then []
    else (if groups[i] == [] then [i] else []) + GapsFrom(groups, i + 1)
  }

  /** The groups of an IPv6 address once a dotted tail has become two
      groups: at most nine; without a `::` exactly eight hextets; with one
      `::` the groups before and after it are hextets, at most seven of
      them, and an empty first or last group is only allowed as half of the
      `::` itself. */
  predicate IsIpv6Groups(groups: seq<string>)
    requires |groups| >= 1
  {
    var gaps := GapsFrom(groups, 1);
    && |groups| <= 9
    && |gaps| <= 1
    && if gaps == [] then |groups| == 8 && AllHextets(groups)
       else
         var k := gaps[0];
         var hi := if groups[0] == [] then k - 1 else k;
         var lo := if Last(groups) == [] then |groups| - k - 2 else |groups| - k - 1;
         && (groups[0] == [] ==> k == 1)
         && (Last(groups) == [] ==> k == |groups| - 2)
         && hi + lo <= 7
         && AllHextets(groups[..hi])
         && AllHextets(groups[|groups| - lo..])
  }

  /** `IPv6Address._ip_int_from_string`: at least three `:`-separated
      groups; a last group with a dot must be an IPv4 address and counts
      as two groups. */
  predicate IsIpv6Address(a: string) {
    var groups := Split(a, ':');
    && |groups| >= 3
    && if '.' in Last(groups) then
         IsIpv4(Last(groups)) && IsIpv6Groups(groups[..|groups| - 1] + ["0", "0"])
       else IsIpv6Groups(groups)
  }

  /** `ipaddress.IPv6Address`: an address, then optionally `%` and a
      non-empty zone identifier without another `%`. */
  predicate IsIpv6(h: string) {
    var zone := After(h, '%');
    && ('%' in h ==> zone != [] && '%' !in zone)
    && IsIpv6Address(Before(h, '%'))
  }

  /** `_check_bracketed_host`: an IPvFuture literal, or else what
      `ipaddress.ip_address` accepts, provided that is not an IPv4 address. */
  function BracketedHostError(h: string): (r: Option<string>)
    ensures r.None? <==> (StartsWith(h, "v") && IsIpvFuture(h)) || (!StartsWith(h, "v") && IsIpv6(h))
  {
    if StartsWith(h, "v") then
      if IsIpvFuture(h) then None else Some(INVALID_IPVFUTURE)
    else if IsIpv4(h) then
      Ipv4IsNotIpv6(h);
      Some(IPV4_IN_BRACKETS)
    else if IsIpv6(h) then None
    else Some(NOT_AN_ADDRESS)
  }

  /** An IPv4 address has no colon, so it is never an IPv6 address. */
  lemma Ipv4IsNotIpv6(h: string)
    requires IsIpv4(h)
    ensures !IsIpv6(h)
  {
    var octets := Split(h, '.');
    OctetsAvoid(octets, ':');
    OctetsAvoid(octets, '%');
    JoinAvoids(octets, ".", ':');
    JoinAvoids(octets, ".", '%');
    SplitNoSep(h, ':');
  }

  /** A bracketed IPv4 address is refused with its own message. */
  lemma Ipv4Refused(h: string)
    requires IsIpv4(h)
    ensures BracketedHostError(h) == Some(IPV4_IN_BRACKETS)
  {
    var octets := Split(h, '.');
    OctetsAvoid(octets, 'v');
    assert IsOctet(octets[0]);
    assert h == octets[0] + "." + Join(octets[1..], ".");
    assert h[0] == octets[0][0];
    assert h[0] in octets[0];
  }

  /** A character in neither the pieces nor the separator is not in their join. */
  lemma {:induction false} JoinAvoids(parts: seq<string>, sep: string, c: char)
    requires c !in sep && forall i :: 0 <= i < |parts| ==> c !in parts[i]
    ensures c !in Join(parts, sep)
    decreases |parts|
  {
    if |parts| > 1 {
      JoinAvoids(parts[1..], sep, c);
    }
  }

  /** A host with fewer than two colons is no IPv6 address, so in brackets
      it is refused unless it is an IPvFuture literal. */
  lemma FewColonsRefused(h: string)
    requires !StartsWith(h, "v") && Count(h, ':') < 2
    ensures BracketedHostError(h).Some?
  {
    var a := Before(h, '%');
    assert h == a + h[|a|..];
    CountAppend(a, h[|a|..], ':');
    SplitCount(a, ':');
  }

  /** Eight hextets joined by colons form an address that may be bracketed. */
  lemma FullFormAccepted(groups: seq<string>)
    requires |groups| == 8 && AllHextets(groups)
    ensures BracketedHostError(Join(groups, ":")) == None
  {
    var h := Join(groups, ":");
    HextetsAvoid(groups, ':');
    HextetsAvoid(groups, '%');
    HextetsAvoid(groups, '.');
    HextetsAvoid(groups, 'v');
    JoinAvoids(groups, ":", '%');
    JoinAvoids(groups, ":", '.');
    JoinSplit(groups, ':');
    NoGaps(groups, 1);
    assert h == groups[0] + ":" + Join(groups[1..], ":");
    assert h[0] == groups[0][0];
    assert h[0] in groups[0];
  }

  lemma {:induction false} OctetsAvoid(os: seq<string>, c: char)
    requires AllOctets(os) && !IsDigit(c)
    ensures forall i :: 0 <= i < |os| ==> c !in os[i]
    decreases |os|
  {
    if |os| > 0 {
      OctetsAvoid(os[1..], c);
      assert forall i :: 1 <= i < |os| ==> os[i] == os[1..][i - 1];
    }
  }

  /** Hextets hold nothing but hexadecimal digits, and none is empty. */
  lemma {:induction false} HextetsAvoid(gs: seq<string>, c: char)
    requires AllHextets(gs) && !IsHexDigit(c)
    ensures forall i :: 0 <= i < |gs| ==> c !in gs[i] && gs[i] != []
    decreases |gs|
  {
    if |gs| > 0 {
      HexAvoids(gs[0], c);
      HextetsAvoid(gs[1..], c);
      assert forall i :: 1 <= i < |gs| ==> gs[i] == gs[1..][i - 1];
    }
  }

  lemma {:induction false} HexAvoids(g: string, c: char)
    requires AllHex(g) && !IsHexDigit(c)
    ensures c !in g
    decreases |g|
  {
    if |g| > 0 {
      HexAvoids(g[1..], c);
      assert g == [g[0]] + g[1..];
    }
  }

  lemma {:induction false} NoGaps(groups: seq<string>, i: nat)
    requires forall j :: 0 <= j < |groups| ==> groups[j] != []
    ensures GapsFrom(groups, i) == []
    decreases |groups| - i
  {
    if i + 1 < |groups| {
      NoGaps(groups, i + 1);
    }
  }

  /** `_check_bracketed_netloc`: nothing may precede the `[`, only a port
      may follow the `]`, and the host must be an address literal. */
  function BracketedNetlocError(netloc: string): (r: Option<string>)
    ensures '[' !in AfterLast(netloc, '@') ==> r == BracketedHostError(Before(AfterLast(netloc, '@'), ':'))
  {
    var hostAndPort := AfterLast(netloc, '@');
    if '[' in hostAndPort then
      var beforeBracket := Before(hostAndPort, '[');
      var bracketed := After(hostAndPort, '[');
      var port := After(bracketed, ']');
      if beforeBracket != [] then Some(INVALID_IPV6)
      else if port != [] && port[0] != ':' then Some(INVALID_IPV6)
      else BracketedHostError(Before(bracketed, ']'))
    else BracketedHostError(Before(hostAndPort, ':'))
  }

  /** The checks `urlsplit` makes on the network location: brackets must be
      balanced, and a bracketed host must be an address literal. */
  function NetlocError(netloc: string): (r: Option<string>)
    ensures '[' !in netloc && ']' !in netloc ==> r.None?
    ensures ('[' in netloc) != (']' in netloc) ==> r == Some(INVALID_IPV6)
  {
    if ('[' in netloc) != (']' in netloc) then Some(INVALID_IPV6)
    else if '[' in netloc then BracketedNetlocError(netloc)
    else None
  }

  /** Schemes whose last path segment can carry `;` parameters. */
  const USES_PARAMS: seq<string> :=
    ["", "ftp", "hdl", "prospero", "http", "imap", "https", "shttp", "rtsp", "rtsps", "rtspu",
     "sip", "sips", "mms", "sftp", "tel"]

  /** `_splitparams`: cut at the first `;` of the last path segment (of the
      whole path when it has no `/`). A `;` only in an earlier segment
      leaves the path whole. */
  function SplitParams(url: string): (r: (string, string))
    requires ';' in url
    ensures StartsWith(url, r.0)
    ensures '/' in url ==> ';' !in url[RFindChar(url, '/')..] ==> r == (url, [])
  {
    if '/' in url then
      var i := FindFrom(url, ";", RFindChar(url, '/'));
      if i < 0 then
        assert ';' !in url[RFindChar(url, '/')..] by {
          forall k | RFindChar(url, '/') <= k < |url|
            ensures url[k] != ';'
          {
            assert !OccursAt(url, ";", k);
            assert url[k..k + 1] == [url[k]];
          }
        }
        (url, [])
      else (url[..i], url[i + 1..])
    else
      var i := FindChar(url, ';');
      (url[..i], url[i + 1..])
  }

  /** The six components `urlparse` returns. */
  datatype UrlParts = UrlParts(scheme: string, netloc: string, path: string, params: string,
                               query: string, fragment: string)

  /** `urlparse(url)`, or the `ValueError` message it raises. */
  function UrlParse(url: string): (r: Result<UrlParts, string>) {
    var (scheme, afterScheme) := SplitScheme(Clean(url));
    SplitAfterScheme(scheme, afterScheme)
  }

  /** The URL with leading controls and spaces, and every tab and line
      break, removed. */
  function Clean(url: string): (r: string)
    ensures Safe(r)
  {
    RemoveUnsafe(LStripC0(url))
  }

  /** Everything `urlparse` does once the scheme is split off: the network
      location and its checks, then the remaining components. */
  function SplitAfterScheme(scheme: string, afterScheme: string): (r: Result<UrlParts, string>) {
    var (netloc, afterNetloc) :=
      if StartsWith(afterScheme, "//") then SplitNetloc(afterScheme) else ([], afterScheme);
    match NetlocError(netloc)
    case Some(message) => Err(message)
    case None => Ok(Components(scheme, netloc, afterNetloc))
  }

  /** The fragment after the first `#`, the query after the first `?`, and
      the parameters of the last path segment. */
  function Components(scheme: string, netloc: string, afterNetloc: string): (r: UrlParts)
    ensures r.scheme == scheme && r.netloc == netloc
  {
    var fragment := After(afterNetloc, '#');
    var beforeFragment := Before(afterNetloc, '#');
    var query := After(beforeFragment, '?');
    var rest := Before(beforeFragment, '?');
    var (path, params) :=
      if scheme in USES_PARAMS && ';' in rest then SplitParams(rest) else (rest, []);
    UrlParts(scheme, netloc, path, params, query, fragment)
  }

  /** The `hostname` attribute: the host after any user information, inside
      the brackets if there are any, before any port; lower-cased up to a
      `%` zone; absent when empty. */
  function Hostname(netloc: string): (r: Option<string>)
    ensures r.Some? ==> r.value != []
  {
    var hostinfo := AfterLast(netloc, '@');
    var host :=
      if '[' in hostinfo then Before(After(hostinfo, '['), ']') else Before(hostinfo, ':');
    if host == [] then None
    else if '%' in host then Some(Lower(Before(host, '%')) + "%" + After(host, '%'))
    else Some(Lower(host))
  }

  // ---------------------------------------------------------------------
  // parse_github_url
  // ---------------------------------------------------------------------

  predicate IsNameChar(c: char) {
    IsAsciiLetter(c) || '0' <= c <= '9' || c == '_' || c == '.' || c == '-'
  }

  /** A full match of `[\w.\-]+` (word characters restricted to ASCII). */
  predicate IsName(s: string) {
    |s| > 0 && forall i :: 0 <= i < |s| ==> IsNameChar(s[i])
  }

  predicate NonEmpty(s: string) {
    s != []
  }

  function Identity(s: string): string {
    s
  }

  /** `path.strip("/")`. */
  function StripSlashes(path: string): (r: string)
    ensures r == [] || (r[0] != '/' && r[|r| - 1] != '/')
  {
    RStripChar(LStripChar(path, '/'), '/')
  }

  /** The non-empty segments of a path with its outer slashes removed. */
  function Segments(path: string): (r: seq<string>)
    ensures forall i :: 0 <= i < |r| ==> r[i] != [] && '/' !in r[i]
  {
    var parts := Split(StripSlashes(path), '/');
    SegmentsShape(parts);
    FilterMap(parts, NonEmpty, Identity)
  }

  lemma {:induction false} SegmentsShape(parts: seq<string>)
    requires forall i :: 0 <= i < |parts| ==> '/' !in parts[i]
    ensures forall i :: 0 <= i < |FilterMap(parts, NonEmpty, Identity)| ==>
              FilterMap(parts, NonEmpty, Identity)[i] != [] && '/' !in FilterMap(parts, NonEmpty, Identity)[i]
  {
    var r := FilterMap(parts, NonEmpty, Identity);
    forall i | 0 <= i < |r|
      ensures r[i] != [] && '/' !in r[i]
    {
      assert r[i] in r;
      FilterMapMembers(parts, NonEmpty, Identity, r[i]);
      var x :| x in parts && NonEmpty(x) && r[i] == Identity(x);
    }
  }

  /** Surrounding whitespace, then trailing slashes, then one `.git`. */
  function Prepare(url: string): (r: string)
    ensures StartsWith(Strip(url), r)
  {
    DropGit(RStripChar(Strip(url), '/'))
  }

  /** One trailing `.git` removed. */
  function DropGit(t: string): (r: string)
    ensures EndsWith(t, ".git") ==> r + ".git" == t
    ensures !EndsWith(t, ".git") ==> r == t
  {
    if EndsWith(t, ".git") then t[..|t| - 4] else t
  }

  /** What remains of `parse_github_url` once the URL is prepared. */
  function ParsePrepared(u: string): (r: Result<(string, string), ParseError>)
    ensures r.Err? && r.error.FetchFailed? ==> r.error.fetch.status == 400
    ensures r.Ok? ==> IsName(r.value.0) && IsName(r.value.1)
  {
    match UrlParse(u)
    case Err(message) => Err(InvalidUrl(message))
    case Ok(parsed) => CheckHost(Hostname(parsed.netloc), parsed.path)
  }

  /** Only `github.com` and `www.github.com` are accepted hosts. */
  function CheckHost(host: Option<string>, path: string): (r: Result<(string, string), ParseError>)
    ensures host != Some("github.com") && host != Some("www.github.com") ==>
              r == Err(FetchFailed(GitHubFetchError(NOT_GITHUB, 400)))
    ensures host == Some("github.com") || host == Some("www.github.com") ==> r == CheckNames(Segments(path))
  {
    if host != Some("github.com") && host != Some("www.github.com") then
      Err(FetchFailed(GitHubFetchError(NOT_GITHUB, 400)))
    else CheckNames(Segments(path))
  }

  /** The first two segments are the owner and the repository; both must
      be names. */
  function CheckNames(parts: seq<string>): (r: Result<(string, string), ParseError>)
    ensures |parts| < 2 ==> r == Err(FetchFailed(GitHubFetchError(NO_OWNER_REPO, 400)))
    ensures |parts| >= 2 ==> (r.Ok? <==> IsName(parts[0]) && IsName(parts[1]))
    ensures |parts| >= 2 && r.Err? ==> r == Err(FetchFailed(GitHubFetchError(BadNames(parts[0], parts[1]), 400)))
    ensures r.Ok? ==> r.value == (parts[0], parts[1])
  {
    if |parts| < 2 then Err(FetchFailed(GitHubFetchError(NO_OWNER_REPO, 400)))
    else
      var owner := parts[0];
      var repo := parts[1];
      if !IsName(owner) || !IsName(repo) then Err(FetchFailed(GitHubFetchError(BadNames(owner, repo), 400)))
      else Ok((owner, repo))
  }

  /** `parse_github_url`: every error it raises itself has status 400, and
      both names it returns are non-empty runs of name characters. */
  function ParseGithubUrl(url: string): (r: Result<(string, string), ParseError>)
    ensures r.Err? && r.error.FetchFailed? ==> r.error.fetch.status == 400
    ensures r.Ok? ==> IsName(r.value.0) && IsName(r.value.1)
  {
    ParsePrepared(Prepare(url))
  }

  // ---------------------------------------------------------------------
  // What parse_github_url returns for repository URLs
  // ---------------------------------------------------------------------

  function SchemeName(secure: bool): string {
    if secure then "https" else "http"
  }

  /** `scheme://host` followed by a path. */
  function HostUrl(secure: bool, host: string, path: string): string {
    SchemeName(secure) + "://" + host + path
  }

  /** A host name with no user information, port, brackets or zone, and
      nothing that ends the network location. */
  predicate PlainHost(host: string) {
    && host != []
    && forall i :: 0 <= i < |host| ==>
         && !IsC0OrSpace(host[i]) && !EndsAuthority(host[i])
         && host[i] != '@' && host[i] != '[' && host[i] != ']' && host[i] != ':' && host[i] != '%'
  }

  /** A path that `urlparse` returns whole: rooted or empty, with no query,
      fragment or parameters, and nothing `urlsplit` deletes. */
  predicate PlainPath(path: string) {
    && (path == [] || path[0] == '/')
    && Safe(path) && '#' !in path && '?' !in path && ';' !in path
  }

  predicate IsGithubHost(host: string) {
    PlainHost(host) && (Lower(host) == "github.com" || Lower(host) == "www.github.com")
  }

  lemma AuthorityEndAt(s: string, from: nat, d: nat)
    requires from <= d <= |s|
    requires forall i :: from <= i < d ==> !EndsAuthority(s[i])
    requires d == |s| || EndsAuthority(s[d])
    ensures AuthorityEnd(s, from) == d
    decreases d - from
  {
    if from < d {
      AuthorityEndAt(s, from + 1, d);
    }
  }

  lemma SchemeOfHostUrl(secure: bool, host: string, path: string)
    ensures SplitScheme(HostUrl(secure, host, path)) == (SchemeName(secure), "//" + host + path)
  {
    var name := SchemeName(secure);
    assert HostUrl(secure, host, path) == name + ":" + ("//" + host + path);
    SchemeNameValid(secure);
    SchemeOf(name, "//" + host + path);
  }

  lemma SchemeNameValid(secure: bool)
    ensures var name := SchemeName(secure);
            name != [] && IsAsciiLetter(name[0]) && AllSchemeChars(name) && ':' !in name && IsLower(name)
  {
  }

  /** A valid lower-case scheme before the first colon is split off whole. */
  lemma SchemeOf(name: string, rest: string)
    requires name != [] && IsAsciiLetter(name[0]) && AllSchemeChars(name) && ':' !in name && IsLower(name)
    ensures SplitScheme(name + ":" + rest) == (name, rest)
  {
    var url := name + ":" + rest;
    assert url[..|name|] == name;
    FindCharAt(url, ':', |name|);
    LowerIsLower(name);
    assert url[|name| + 1..] == rest;
  }

  lemma NetlocOfHostUrl(host: string, path: string)
    requires PlainHost(host) && (path == [] || path[0] == '/')
    ensures SplitNetloc("//" + host + path) == (host, path)
  {
    var u := "//" + host + path;
    forall i | 2 <= i < 2 + |host|
      ensures !EndsAuthority(u[i])
    {
      assert u[i] == host[i - 2];
    }
    assert 2 + |host| < |u| ==> u[2 + |host|] == path[0];
    AuthorityEndAt(u, 2, 2 + |host|);
    assert u[2..2 + |host|] == host;
    assert u[2 + |host|..] == path;
  }

  lemma SafeHostUrl(secure: bool, host: string, path: string)
    requires PlainHost(host) && Safe(path)
    ensures Safe(HostUrl(secure, host, path))
  {
    var url := HostUrl(secure, host, path);
    var n := |SchemeName(secure)| + 3;
    forall i | 0 <= i < |url|
      ensures !IsUnsafe(url[i])
    {
      if n <= i < n + |host| {
        assert url[i] == host[i - n];
      } else if n + |host| <= i {
        assert url[i] == path[i - n - |host|];
      }
    }
  }

  /** `urlparse` takes a plain URL apart at the expected places. */
  lemma UrlParseHostUrl(secure: bool, host: string, path: string)
    requires PlainHost(host) && PlainPath(path)
    ensures UrlParse(HostUrl(secure, host, path)) == Ok(UrlParts(SchemeName(secure), host, path, [], [], []))
  {
    var url := HostUrl(secure, host, path);
    CleanHostUrl(secure, host, path);
    SchemeOfHostUrl(secure, host, path);
    AfterSchemeOfHostUrl(SchemeName(secure), host, path);
  }

  lemma CleanHostUrl(secure: bool, host: string, path: string)
    requires PlainHost(host) && Safe(path)
    ensures Clean(HostUrl(secure, host, path)) == HostUrl(secure, host, path)
  {
    var url := HostUrl(secure, host, path);
    assert url[0] == 'h';
    SafeHostUrl(secure, host, path);
  }

  lemma AfterSchemeOfHostUrl(scheme: string, host: string, path: string)
    requires PlainHost(host) && PlainPath(path)
    ensures SplitAfterScheme(scheme, "//" + host + path) == Ok(UrlParts(scheme, host, path, [], [], []))
  {
    assert StartsWith("//" + host + path, "//");
    NetlocOfHostUrl(host, path);
    NoNetlocError(host);
    ComponentsOfPlainPath(scheme, host, path);
  }

  lemma NoNetlocError(host: string)
    requires PlainHost(host)
    ensures NetlocError(host) == None
  {
    assert '[' !in host && ']' !in host;
  }

  lemma ComponentsOfPlainPath(scheme: string, netloc: string, path: string)
    requires PlainPath(path)
    ensures Components(scheme, netloc, path) == UrlParts(scheme, netloc, path, [], [], [])
  {
  }

  /** For a plain URL only the host and the path segments matter. */
  lemma ParsePreparedHostUrl(secure: bool, host: string, path: string)
    requires PlainHost(host) && PlainPath(path)
    ensures ParsePrepared(HostUrl(secure, host, path)) == CheckHost(Some(Lower(host)), path)
  {
    UrlParseHostUrl(secure, host, path);
    ParsePreparedOf(HostUrl(secure, host, path), UrlParts(SchemeName(secure), host, path, [], [], []));
    HostnameOfPlainHost(host);
  }

  /** The host of a plain network location is the whole of it, lower-cased. */
  lemma HostnameOfPlainHost(host: string)
    requires PlainHost(host)
    ensures Hostname(host) == Some(Lower(host))
  {
  }

  /** The first two segments of `/owner/repo...` are the owner and the
      repository, whatever follows. */
  lemma SegmentsOfRepoPath(owner: string, repo: string, rest: string)
    requires owner != [] && '/' !in owner && repo != [] && '/' !in repo
    requires rest == [] || rest[0] == '/'
    ensures var parts := Segments("/" + owner + "/" + repo + rest);
            |parts| >= 2 && parts[0] == owner && parts[1] == repo
  {
    var path := "/" + owner + "/" + repo + rest;
    var kept := StripRepoPath(owner, repo, rest);
    var parts := Split(owner + "/" + repo + kept, '/');
    RepoPieces(owner, repo, kept);
    KeepsFirstTwo(parts);
    var r := Segments(path);
    assert r[0] == r[..2][0] && r[1] == r[..2][1];
  }

  /** Stripping the slashes of `/owner/repo...` leaves the names in front. */
  lemma StripRepoPath(owner: string, repo: string, rest: string) returns (kept: string)
    requires owner != [] && '/' !in owner && repo != [] && '/' !in repo
    requires rest == [] || rest[0] == '/'
    ensures kept == [] || kept[0] == '/'
    ensures StripSlashes("/" + owner + "/" + repo + rest) == owner + "/" + repo + kept
  {
    var a := owner + "/" + repo;
    assert "/" + owner + "/" + repo + rest == "/" + (a + rest);
    assert owner[0] in owner && repo[|repo| - 1] in repo;
    assert (a + rest)[0] == owner[0];
    LStripOne(a + rest);
    assert a[|a| - 1] == repo[|repo| - 1];
    RStripCharAppend(a, rest, '/');
    kept := RStripChar(rest, '/');
  }

  /** One leading slash before a text that does not start with one is all
      that `lstrip("/")` removes. */
  lemma LStripOne(x: string)
    requires x != [] && x[0] != '/'
    ensures LStripChar("/" + x, '/') == x
  {
    assert ("/" + x)[1..] == x;
  }

  /** Non-empty leading pieces survive the filter. */
  lemma KeepsFirstTwo(parts: seq<string>)
    requires |parts| >= 2 && parts[0] != [] && parts[1] != []
    ensures var r := FilterMap(parts, NonEmpty, Identity);
            |r| >= 2 && r[..2] == parts[..2]
  {
    assert parts == [parts[0]] + parts[1..];
    assert parts[1..] == [parts[1]] + parts[2..];
  }

  lemma RepoPieces(owner: string, repo: string, kept: string)
    requires '/' !in owner && '/' !in repo && (kept == [] || kept[0] == '/')
    ensures var parts := Split(owner + "/" + repo + kept, '/');
            |parts| >= 2 && parts[0] == owner && parts[1] == repo
  {
    assert owner + "/" + repo + kept == owner + ['/'] + (repo + kept);
    SplitAppend(owner, repo + kept, '/');
    SplitNoSep(owner, '/');
    if kept == [] {
      assert repo + kept == repo;
      SplitNoSep(repo, '/');
    } else {
      assert repo + kept == repo + ['/'] + kept[1..];
      SplitAppend(repo, kept[1..], '/');
      SplitNoSep(repo, '/');
    }
  }

  /** `/owner` and `/owner/` have the one segment `owner`. */
  lemma SegmentsOfOwnerPath(owner: string, rest: string)
    requires owner != [] && '/' !in owner && (rest == [] || rest == "/")
    ensures Segments("/" + owner + rest) == [owner]
  {
    var path := "/" + owner + rest;
    assert owner[0] != '/' by {
      assert owner[0] in owner;
    }
    assert path[1..] == owner + rest;
    assert owner[|owner| - 1] in owner;
    RStripCharAppend(owner, rest, '/');
    assert RStripChar(rest, '/') == [];
    assert owner + [] == owner;
    SplitNoSep(owner, '/');
  }

  /** A github.com URL whose path starts with two names yields them. */
  lemma ParsesRepoPath(secure: bool, host: string, owner: string, repo: string, rest: string)
    requires IsGithubHost(host) && IsName(owner) && IsName(repo) && PlainPath(rest)
    ensures ParsePrepared(HostUrl(secure, host, RepoPath(owner, repo) + rest)) == Ok((owner, repo))
  {
    NameIsPlain(owner);
    NameIsPlain(repo);
    RepoPathChecked(secure, host, owner, repo, rest);
    SegmentsOfRepoPath(owner, repo, rest);
    CheckNamesOf(Segments(RepoPath(owner, repo) + rest), owner, repo);
  }

  /** On a github.com URL, the first two path segments are checked as names. */
  lemma RepoPathChecked(secure: bool, host: string, owner: string, repo: string, rest: string)
    requires IsGithubHost(host) && PlainPath(rest)
    requires owner != [] && '/' !in owner && '#' !in owner && '?' !in owner && ';' !in owner && Safe(owner)
    requires repo != [] && '/' !in repo && '#' !in repo && '?' !in repo && ';' !in repo && Safe(repo)
    ensures ParsePrepared(HostUrl(secure, host, RepoPath(owner, repo) + rest))
            == CheckNames(Segments(RepoPath(owner, repo) + rest))
  {
    var path := RepoPath(owner, repo) + rest;
    PlainRepoPath(owner, repo, rest);
    ParsePreparedHostUrl(secure, host, path);
  }

  /** `CheckNames` looks at the first two segments only. */
  lemma CheckNamesOf(parts: seq<string>, owner: string, repo: string)
    requires |parts| >= 2 && parts[0] == owner && parts[1] == repo
    ensures CheckNames(parts) == if IsName(owner) && IsName(repo) then Ok((owner, repo))
                                 else Err(FetchFailed(GitHubFetchError(BadNames(owner, repo), 400)))
  {
  }

  lemma NameIsPlain(s: string)
    requires IsName(s)
    ensures '/' !in s && '#' !in s && '?' !in s && ';' !in s && Safe(s)
  {
  }

  lemma PlainRepoPath(owner: string, repo: string, rest: string)
    requires '#' !in owner && '?' !in owner && ';' !in owner && Safe(owner)
    requires '#' !in repo && '?' !in repo && ';' !in repo && Safe(repo)
    requires PlainPath(rest)
    ensures PlainPath("/" + owner + "/" + repo + rest)
  {
    var path := "/" + owner + "/" + repo + rest;
    var a := |owner| + 2;
    var b := a + |repo|;
    forall i | 0 <= i < |path|
      ensures path[i] != '#' && path[i] != '?' && path[i] != ';' && !IsUnsafe(path[i])
    {
      if 1 <= i < a - 1 {
        assert path[i] == owner[i - 1];
      } else if a <= i < b {
        assert path[i] == repo[i - a];
      } else if b <= i {
        assert path[i] == rest[i - b];
      }
    }
  }

  /** Any other host is refused with status 400. */
  lemma RejectsOtherHost(secure: bool, host: string, path: string)
    requires PlainHost(host) && PlainPath(path)
    requires Lower(host) != "github.com" && Lower(host) != "www.github.com"
    ensures ParsePrepared(HostUrl(secure, host, path)) == Err(FetchFailed(GitHubFetchError(NOT_GITHUB, 400)))
  {
    ParsePreparedHostUrl(secure, host, path);
  }

  /** An owner without a repository is refused with status 400. */
  lemma RejectsOwnerOnly(secure: bool, host: string, owner: string, rest: string)
    requires IsGithubHost(host) && IsName(owner) && (rest == [] || rest == "/")
    ensures ParsePrepared(HostUrl(secure, host, "/" + owner + rest))
            == Err(FetchFailed(GitHubFetchError(NO_OWNER_REPO, 400)))
  {
    var path := "/" + owner + rest;
    NameIsPlain(owner);
    PlainOwnerPath(owner, rest);
    ParsePreparedHostUrl(secure, host, path);
    SegmentsOfOwnerPath(owner, rest);
  }

  lemma PlainOwnerPath(owner: string, rest: string)
    requires '#' !in owner && '?' !in owner && ';' !in owner && Safe(owner)
    requires rest == [] || rest == "/"
    ensures PlainPath("/" + owner + rest)
  {
    var path := "/" + owner + rest;
    forall i | 0 <= i < |path|
      ensures path[i] != '#' && path[i] != '?' && path[i] != ';' && !IsUnsafe(path[i])
    {
      if 1 <= i <= |owner| {
        assert path[i] == owner[i - 1];
      }
    }
  }

  /** Segments with characters outside `[\w.-]` are refused with status 400
      and named in the message. */
  lemma RejectsBadNames(secure: bool, host: string, owner: string, repo: string, rest: string)
    requires IsGithubHost(host) && PlainPath(rest)
    requires owner != [] && '/' !in owner && '#' !in owner && '?' !in owner && ';' !in owner && Safe(owner)
    requires repo != [] && '/' !in repo && '#' !in repo && '?' !in repo && ';' !in repo && Safe(repo)
    requires !IsName(owner) || !IsName(repo)
    ensures ParsePrepared(HostUrl(secure, host, RepoPath(owner, repo) + rest))
            == Err(FetchFailed(GitHubFetchError(BadNames(owner, repo), 400)))
  {
    RepoPathChecked(secure, host, owner, repo, rest);
    SegmentsOfRepoPath(owner, repo, rest);
    CheckNamesOf(Segments(RepoPath(owner, repo) + rest), owner, repo);
  }

  // ---------------------------------------------------------------------
  // Preparation
  // ---------------------------------------------------------------------

  /** Surrounding whitespace and any run of trailing slashes do not change
      the result. */
  lemma PaddingIgnored(w1: string, u: string, slashes: string, w2: string)
    requires AllSpace(w1) && AllSpace(w2) && Stripped(u)
    requires u != [] && u[|u| - 1] != '/'
    requires forall i :: 0 <= i < |slashes| ==> slashes[i] == '/'
    ensures Prepare(w1 + u + slashes + w2) == Prepare(u)
    ensures ParseGithubUrl(w1 + u + slashes + w2) == ParseGithubUrl(u)
  {
    TrimmedPadding(w1, u, slashes, w2);
  }

  lemma TrimmedPadding(w1: string, u: string, slashes: string, w2: string)
    requires AllSpace(w1) && AllSpace(w2) && Stripped(u)
    requires u != [] && u[|u| - 1] != '/'
    requires forall i :: 0 <= i < |slashes| ==> slashes[i] == '/'
    ensures RStripChar(Strip(w1 + u + slashes + w2), '/') == u
    ensures RStripChar(Strip(u), '/') == u
  {
    var m := u + slashes;
    assert w1 + u + slashes + w2 == w1 + m + w2;
    assert !IsSpace('/');
    assert Stripped(m);
    StripExact(w1, m, w2);
    StrippedFixed(u);
    RStripCharAppend(u, slashes, '/');
    AllSlashes(slashes);
    assert u + [] == u;
  }

  lemma AllSlashes(slashes: string)
    requires forall i :: 0 <= i < |slashes| ==> slashes[i] == '/'
    ensures RStripChar(slashes, '/') == []
  {
  }

  /** The URL of a repository, as the request validator returns it. */
  function RepoUrl(secure: bool, owner: string, repo: string): (u: string)
    ensures u == SchemeName(secure) + "://github.com/" + owner + "/" + repo
  {
    HostUrl(secure, "github.com", RepoPath(owner, repo))
  }

  function RepoPath(owner: string, repo: string): string {
    "/" + owner + "/" + repo
  }

  /** A repository URL ends in `.git` exactly when its repository does. */
  lemma RepoUrlGitSuffix(secure: bool, owner: string, repo: string)
    requires '/' !in repo
    ensures EndsWith(RepoUrl(secure, owner, repo), ".git") <==> EndsWith(repo, ".git")
  {
    var u := RepoUrl(secure, owner, repo);
    var n := |u| - |repo| - 1;
    assert u[n] == '/';
    assert u[n + 1..] == repo;
    if |repo| >= 4 {
      assert u[|u| - 4..] == repo[|repo| - 4..];
    }
  }

  /** A repository URL with nothing around it is already trimmed: preparing
      it only drops a `.git` suffix. */
  lemma PrepareRepoUrl(secure: bool, owner: string, repo: string)
    requires IsName(repo)
    ensures Prepare(RepoUrl(secure, owner, repo)) == DropGit(RepoUrl(secure, owner, repo))
  {
    RepoUrlBare(secure, owner, repo);
    PrepareBare(RepoUrl(secure, owner, repo));
  }

  /** A text with no surrounding whitespace and no trailing slash is only
      stripped of `.git`. */
  lemma PrepareBare(u: string)
    requires u != [] && !IsSpace(u[0]) && !IsSpace(u[|u| - 1]) && u[|u| - 1] != '/'
    ensures Prepare(u) == DropGit(u)
  {
    StrippedFixed(u);
    assert RStripChar(u, '/') == u;
  }

  lemma RepoUrlBare(secure: bool, owner: string, repo: string)
    requires IsName(repo)
    ensures var u := RepoUrl(secure, owner, repo);
            u != [] && !IsSpace(u[0]) && !IsSpace(u[|u| - 1]) && u[|u| - 1] != '/'
  {
    var a := SchemeName(secure) + "://github.com/" + owner + "/";
    var u := RepoUrl(secure, owner, repo);
    assert u == a + repo;
    assert u[0] == a[0] == 'h';
    assert u[|u| - 1] == repo[|repo| - 1];
  }

  /** `.git` appended to anything is dropped again. */
  lemma DropGitAppended(x: string)
    ensures DropGit(x + ".git") == x
  {
    var t := x + ".git";
    assert t[|t| - 4..] == ".git";
    assert t[..|t| - 4] == x;
  }

  lemma RepoUrlAppend(secure: bool, owner: string, repo: string, tail: string)
    ensures RepoUrl(secure, owner, repo + tail) == RepoUrl(secure, owner, repo) + tail
  {
  }

  /** A repository URL yields its owner and repository. */
  lemma ParsesRepoUrl(secure: bool, owner: string, repo: string)
    requires IsName(owner) && IsName(repo) && !EndsWith(repo, ".git")
    ensures ParseGithubUrl(RepoUrl(secure, owner, repo)) == Ok((owner, repo))
  {
    PreparedRepoUrl(secure, owner, repo);
    ParsesPreparedRepoUrl(secure, owner, repo);
  }

  lemma PreparedRepoUrl(secure: bool, owner: string, repo: string)
    requires IsName(owner) && IsName(repo) && !EndsWith(repo, ".git")
    ensures Prepare(RepoUrl(secure, owner, repo)) == RepoUrl(secure, owner, repo)
  {
    PrepareRepoUrl(secure, owner, repo);
    NameIsPlain(repo);
    RepoUrlGitSuffix(secure, owner, repo);
  }

  lemma ParsesPreparedRepoUrl(secure: bool, owner: string, repo: string)
    requires IsName(owner) && IsName(repo)
    ensures ParsePrepared(RepoUrl(secure, owner, repo)) == Ok((owner, repo))
  {
    GithubIsGithubHost();
    var p := RepoPath(owner, repo);
    assert p + [] == p;
    ParsesRepoPath(secure, "github.com", owner, repo, []);
  }

  lemma GithubIsGithubHost()
    ensures IsGithubHost("github.com")
  {
    assert LowerDotted("github.com");
    LowerDottedHost("github.com");
  }

  /** Lower-case letters and dots only, checked one character at a time. */
  predicate LowerDotted(s: string) {
    s == [] || (('a' <= s[0] <= 'z' || s[0] == '.') && LowerDotted(s[1..]))
  }

  /** A non-empty run of lower-case letters and dots is a plain host that
      lower-casing leaves alone. */
  lemma LowerDottedHost(s: string)
    requires s != [] && LowerDotted(s)
    ensures PlainHost(s) && Lower(s) == s
  {
    LowerDottedAt(s);
    LowerIsLower(s);
  }

  lemma {:induction false} LowerDottedAt(s: string)
    requires LowerDotted(s)
    ensures forall i :: 0 <= i < |s| ==> 'a' <= s[i] <= 'z' || s[i] == '.'
    decreases |s|
  {
    if s != [] {
      LowerDottedAt(s[1..]);
      assert forall i :: 1 <= i < |s| ==> s[i] == s[1..][i - 1];
    }
  }

  /** One `.git` suffix on the repository is dropped. */
  lemma DropsGitSuffix(secure: bool, owner: string, repo: string)
    requires IsName(owner) && IsName(repo)
    ensures ParseGithubUrl(RepoUrl(secure, owner, repo + ".git")) == Ok((owner, repo))
  {
    PreparedGitUrl(secure, owner, repo);
    ParsesPreparedRepoUrl(secure, owner, repo);
  }

  lemma PreparedGitUrl(secure: bool, owner: string, repo: string)
    requires IsName(owner) && IsName(repo)
    ensures Prepare(RepoUrl(secure, owner, repo + ".git")) == RepoUrl(secure, owner, repo)
  {
    GitNameIsName(repo);
    PrepareRepoUrl(secure, owner, repo + ".git");
    RepoUrlAppend(secure, owner, repo, ".git");
    DropGitAppended(RepoUrl(secure, owner, repo));
  }

  lemma GitNameIsName(repo: string)
    requires IsName(repo)
    ensures IsName(repo + ".git")
  {
    var g := repo + ".git";
    forall i | 0 <= i < |g|
      ensures IsNameChar(g[i])
    {
      if i < |repo| {
        assert g[i] == repo[i];
      }
    }
  }

  /** The empty string has no host. */
  lemma RejectsEmpty()
    ensures ParseGithubUrl("") == Err(FetchFailed(GitHubFetchError(NOT_GITHUB, 400)))
  {
    PrepareEmpty();
    ParsePreparedEmpty();
  }

  lemma ParsePreparedEmpty()
    ensures ParsePrepared("") == Err(FetchFailed(GitHubFetchError(NOT_GITHUB, 400)))
  {
    var parts := UrlParts([], [], [], [], [], []);
    UrlParseEmpty();
    ParsePreparedOf("", parts);
    HostnameEmpty();
  }

  /** `parse_github_url` reads only the host and the path of what
      `urlparse` returns. */
  lemma ParsePreparedOf(u: string, parts: UrlParts)
    requires UrlParse(u) == Ok(parts)
    ensures ParsePrepared(u) == CheckHost(Hostname(parts.netloc), parts.path)
  {
  }

  lemma HostnameEmpty()
    ensures Hostname([]) == None
  {
    assert AfterLast([], '@') == [];
    assert Before([], ':') == [];
  }

  lemma PrepareEmpty()
    ensures Prepare("") == ""
  {
    StrippedFixed("");
    assert RStripChar("", '/') == "";
    assert !EndsWith("", ".git");
  }

  lemma UrlParseEmpty()
    ensures UrlParse("") == Ok(UrlParts([], [], [], [], [], []))
  {
    CleanEmpty();
    SchemeOfEmpty();
    AfterSchemeOfEmpty();
  }

  lemma CleanEmpty()
    ensures Clean([]) == []
  {
  }

  lemma SchemeOfEmpty()
    ensures SplitScheme([]) == ([], [])
  {
    assert FindChar([], ':') < 0;
  }

  lemma AfterSchemeOfEmpty()
    ensures SplitAfterScheme([], []) == Ok(UrlParts([], [], [], [], [], []))
  {
    assert !StartsWith([], "//");
    assert NetlocError([]) == None;
    assert Components([], [], []) == UrlParts([], [], [], [], [], []);
  }

  // ---------------------------------------------------------------------
  // SummarizeRequest.validate_github_url
  // ---------------------------------------------------------------------

  /** The `ValueError` a pydantic field validator raises. */
  datatype ValueError = ValueError(message: string)

  const INVALID_GITHUB_URL: string :=
    "Invalid GitHub repository URL. Expected format: https://github.com/{owner}/{repo}"

  const HTTPS_PREFIX: string := "https://github.com/"
  const HTTP_PREFIX: string := "http://github.com/"

  /** What follows `http://github.com/` or `https://github.com/`, when the
      text starts with one of them. */
  function AfterPrefix(s: string): (r: Option<string>)
    ensures r.Some? ==> s == HTTPS_PREFIX + r.value || s == HTTP_PREFIX + r.value
    ensures r.None? ==> !StartsWith(s, HTTPS_PREFIX) && !StartsWith(s, HTTP_PREFIX)
  {
    if StartsWith(s, HTTPS_PREFIX) then
      assert s == HTTPS_PREFIX + s[|HTTPS_PREFIX|..];
      Some(s[|HTTPS_PREFIX|..])
    else if StartsWith(s, HTTP_PREFIX) then
      assert s == HTTP_PREFIX + s[|HTTP_PREFIX|..];
      Some(s[|HTTP_PREFIX|..])
    else None
  }

  /** `name/name`, optionally followed by one `/`. */
  predicate NamePair(rest: string) {
    var ps := Split(rest, '/');
    (|ps| == 2 || (|ps| == 3 && ps[2] == [])) && IsName(ps[0]) && IsName(ps[1])
  }

  /** A full match of `^https?://github\.com/[\w.\-]+/[\w.\-]+/?$` on a
      text with no trailing line break. */
  predicate MatchesRepoPattern(s: string) {
    AfterPrefix(s).Some? && NamePair(AfterPrefix(s).value)
  }

  /** `validate_github_url`: the trimmed value must match the repository
      pattern; it is returned trimmed and without trailing slashes. */
  function ValidateGithubUrl(v: string): (r: Result<string, ValueError>)
    ensures r.Err? ==> r.error == ValueError(INVALID_GITHUB_URL)
    ensures r.Ok? ==> r.value != [] && r.value[|r.value| - 1] != '/'
    ensures r.Ok? ==> StartsWith(Strip(v), r.value)
  {
    var s := Strip(v);
    if !MatchesRepoPattern(s) then Err(ValueError(INVALID_GITHUB_URL))
    else
      assert s[0] == 'h';
      Ok(RStripChar(s, '/'))
  }

  function Slash(slash: bool): string {
    if slash then "/" else ""
  }

  /** Every repository URL, with one optional trailing slash and whitespace
      around it, is accepted and returned bare. */
  lemma AcceptsRepoUrls(secure: bool, owner: string, repo: string, slash: bool, w1: string, w2: string)
    requires IsName(owner) && IsName(repo) && AllSpace(w1) && AllSpace(w2)
    ensures ValidateGithubUrl(w1 + (RepoUrl(secure, owner, repo) + Slash(slash)) + w2)
            == Ok(RepoUrl(secure, owner, repo))
  {
    var t := RepoUrl(secure, owner, repo) + Slash(slash);
    SlashedStripped(secure, owner, repo, slash);
    StripExact(w1, t, w2);
    PatternOfRepoUrl(secure, owner, repo, slash);
    SlashRemoved(secure, owner, repo, slash);
  }

  /** A repository URL, slash or not, has no whitespace at either end. */
  lemma SlashedStripped(secure: bool, owner: string, repo: string, slash: bool)
    requires IsName(repo)
    ensures Stripped(RepoUrl(secure, owner, repo) + Slash(slash))
  {
    var u := RepoUrl(secure, owner, repo);
    var t := u + Slash(slash);
    RepoUrlBare(secure, owner, repo);
    assert t[0] == u[0];
    assert t[|t| - 1] == if slash then '/' else u[|u| - 1];
  }

  /** Removing trailing slashes gives back the bare repository URL. */
  lemma SlashRemoved(secure: bool, owner: string, repo: string, slash: bool)
    requires IsName(repo)
    ensures RStripChar(RepoUrl(secure, owner, repo) + Slash(slash), '/') == RepoUrl(secure, owner, repo)
  {
    var u := RepoUrl(secure, owner, repo);
    RepoUrlBare(secure, owner, repo);
    RStripCharAppend(u, Slash(slash), '/');
    assert RStripChar(Slash(slash), '/') == [];
    assert u + [] == u;
  }

  lemma PatternOfRepoUrl(secure: bool, owner: string, repo: string, slash: bool)
    requires IsName(owner) && IsName(repo)
    ensures MatchesRepoPattern(RepoUrl(secure, owner, repo) + Slash(slash))
  {
    AfterPrefixOfRepoUrl(secure, owner, repo, Slash(slash));
    NamePairOf(owner, repo, slash);
  }

  lemma AfterPrefixOfRepoUrl(secure: bool, owner: string, repo: string, tail: string)
    ensures AfterPrefix(RepoUrl(secure, owner, repo) + tail) == Some(owner + "/" + repo + tail)
  {
    var rest := owner + "/" + repo + tail;
    RepoUrlParts(secure, owner, repo, tail);
    PrefixOfScheme(secure);
    if secure {
      AfterHttpsPrefix(rest);
    } else {
      AfterHttpPrefix(rest);
    }
  }

  lemma RepoUrlParts(secure: bool, owner: string, repo: string, tail: string)
    ensures RepoUrl(secure, owner, repo) + tail == SchemeName(secure) + "://github.com/" + (owner + "/" + repo + tail)
  {
  }

  lemma PrefixOfScheme(secure: bool)
    ensures SchemeName(secure) + "://github.com/" == if secure then HTTPS_PREFIX else HTTP_PREFIX
  {
  }

  lemma AfterHttpsPrefix(rest: string)
    ensures AfterPrefix(HTTPS_PREFIX + rest) == Some(rest)
  {
    assert (HTTPS_PREFIX + rest)[..|HTTPS_PREFIX|] == HTTPS_PREFIX;
  }

  lemma AfterHttpPrefix(rest: string)
    ensures AfterPrefix(HTTP_PREFIX + rest) == Some(rest)
  {
    var t := HTTP_PREFIX + rest;
    assert t[4] == ':' && HTTPS_PREFIX[4] == 's';
    assert t[..|HTTP_PREFIX|] == HTTP_PREFIX;
  }

  lemma NamePairOf(owner: string, repo: string, slash: bool)
    requires IsName(owner) && IsName(repo)
    ensures NamePair(owner + "/" + repo + Slash(slash))
  {
    NameIsPlain(owner);
    NameIsPlain(repo);
    var rest := owner + "/" + repo + Slash(slash);
    assert rest == owner + ['/'] + (repo + Slash(slash));
    SplitAppend(owner, repo + Slash(slash), '/');
    SplitNoSep(owner, '/');
    SplitNoSep(repo, '/');
    if slash {
      assert repo + Slash(slash) == repo + ['/'] + [];
      SplitAppend(repo, [], '/');
    } else {
      assert repo + Slash(slash) == repo;
    }
  }

  /** Only repository URLs are accepted: the trimmed value is one, possibly
      with a trailing slash, and the result is the bare URL. */
  lemma AcceptsOnlyRepoUrls(v: string)
    requires ValidateGithubUrl(v).Ok?
    ensures exists secure: bool, owner: string, repo: string, slash: bool ::
              && IsName(owner) && IsName(repo)
              && Strip(v) == RepoUrl(secure, owner, repo) + Slash(slash)
              && ValidateGithubUrl(v).value == RepoUrl(secure, owner, repo)
  {
    var secure, owner, repo, slash := RepoUrlOfMatch(Strip(v));
    ValidatedValue(v);
    SlashRemoved(secure, owner, repo, slash);
  }

  lemma ValidatedValue(v: string)
    requires ValidateGithubUrl(v).Ok?
    ensures MatchesRepoPattern(Strip(v))
    ensures ValidateGithubUrl(v).value == RStripChar(Strip(v), '/')
  {
  }

  /** The parts of a text that matches the repository pattern. */
  lemma RepoUrlOfMatch(t: string) returns (secure: bool, owner: string, repo: string, slash: bool)
    requires MatchesRepoPattern(t)
    ensures IsName(owner) && IsName(repo)
    ensures t == RepoUrl(secure, owner, repo) + Slash(slash)
  {
    var rest := AfterPrefix(t).value;
    secure := StartsWith(t, HTTPS_PREFIX);
    var ps := Split(rest, '/');
    owner := ps[0];
    repo := ps[1];
    slash := |ps| == 3;
    RestOfPattern(rest, slash);
    PrefixAndRest(t, rest, secure);
    Reassemble(t, SchemeName(secure) + "://github.com/", owner, repo, Slash(slash));
  }

  lemma Reassemble(t: string, pre: string, owner: string, repo: string, tail: string)
    requires t == pre + (owner + "/" + repo + tail)
    ensures t == pre + owner + "/" + repo + tail
  {
  }

  lemma RestOfPattern(rest: string, slash: bool)
    requires NamePair(rest) && slash == (|Split(rest, '/')| == 3)
    ensures var ps := Split(rest, '/');
            rest == ps[0] + "/" + ps[1] + Slash(slash)
  {
    var ps := Split(rest, '/');
    assert Join(ps, "/") == ps[0] + "/" + Join(ps[1..], "/");
    if slash {
      assert ps[1..][1..] == [[]];
      assert Join(ps[1..], "/") == ps[1] + "/" + Join(ps[1..][1..], "/");
    } else {
      assert ps[1..] == [ps[1]];
      assert ps[0] + "/" + ps[1] + Slash(slash) == ps[0] + "/" + ps[1];
    }
  }

  lemma PrefixAndRest(t: string, rest: string, secure: bool)
    requires AfterPrefix(t) == Some(rest) && secure == StartsWith(t, HTTPS_PREFIX)
    ensures t == SchemeName(secure) + "://github.com/" + rest
  {
    PrefixOfScheme(secure);
    if secure {
      assert t == HTTPS_PREFIX + rest;
    } else {
      assert t == HTTP_PREFIX + rest;
    }
  }

  /** Two trailing slashes are refused. */
  lemma RejectsTwoSlashes(secure: bool, owner: string, repo: string)
    requires IsName(owner) && IsName(repo)
    ensures ValidateGithubUrl(RepoUrl(secure, owner, repo) + "//") == Err(ValueError(INVALID_GITHUB_URL))
  {
    var u := RepoUrl(secure, owner, repo);
    var t := u + "//";
    assert t[0] == 'h';
    StrippedFixed(t);
    NoPatternTwoSlashes(secure, owner, repo);
  }

  lemma NoPatternTwoSlashes(secure: bool, owner: string, repo: string)
    requires IsName(owner) && IsName(repo)
    ensures !MatchesRepoPattern(RepoUrl(secure, owner, repo) + "//")
  {
    AfterPrefixOfRepoUrl(secure, owner, repo, "//");
    SplitTwoSlashes(owner, repo);
  }

  lemma SplitTwoSlashes(owner: string, repo: string)
    requires IsName(owner) && IsName(repo)
    ensures |Split(owner + "/" + repo + "//", '/')| == 4
  {
    NameIsPlain(owner);
    NameIsPlain(repo);
    var rest := owner + "/" + repo + "//";
    assert rest == owner + ['/'] + (repo + ['/'] + ([] + ['/'] + []));
    SplitAppend(owner, repo + ['/'] + ([] + ['/'] + []), '/');
    SplitAppend(repo, [] + ['/'] + [], '/');
    SplitAppend([], [], '/');
    SplitNoSep(owner, '/');
    SplitNoSep(repo, '/');
  }

  /** A URL the request validator accepts is one `parse_github_url` accepts,
      with one `.git` dropped from the repository, unless the repository is
      `.git` itself: the validator takes that, the parser finds no
      repository. */
  lemma ValidatedUrlParses(secure: bool, owner: string, repo: string)
    requires IsName(owner) && IsName(repo)
    ensures repo != ".git" ==> ParseGithubUrl(RepoUrl(secure, owner, repo)) == Ok((owner, DropGit(repo)))
    ensures repo == ".git" ==>
              && ValidateGithubUrl(RepoUrl(secure, owner, repo)).Ok?
              && ParseGithubUrl(RepoUrl(secure, owner, repo)) == Err(FetchFailed(GitHubFetchError(NO_OWNER_REPO, 400)))
  {
    if repo == ".git" {
      ValidatesBare(secure, owner, repo);
      GitOnlyRepo(secure, owner);
    } else if EndsWith(repo, ".git") {
      ParsesGitRepo(secure, owner, repo);
    } else {
      ParsesRepoUrl(secure, owner, repo);
    }
  }

  lemma ValidatesBare(secure: bool, owner: string, repo: string)
    requires IsName(owner) && IsName(repo)
    ensures ValidateGithubUrl(RepoUrl(secure, owner, repo)) == Ok(RepoUrl(secure, owner, repo))
  {
    AcceptsRepoUrls(secure, owner, repo, false, [], []);
    assert [] + (RepoUrl(secure, owner, repo) + Slash(false)) + [] == RepoUrl(secure, owner, repo);
  }

  lemma ParsesGitRepo(secure: bool, owner: string, repo: string)
    requires IsName(owner) && IsName(repo) && EndsWith(repo, ".git") && repo != ".git"
    ensures ParseGithubUrl(RepoUrl(secure, owner, repo)) == Ok((owner, DropGit(repo)))
  {
    var base := DropGit(repo);
    assert base + ".git" == repo;
    assert IsName(base) by {
      forall i | 0 <= i < |base|
        ensures IsNameChar(base[i])
      {
        assert base[i] == repo[i];
      }
    }
    DropsGitSuffix(secure, owner, base);
  }

  lemma GitOnlyRepo(secure: bool, owner: string)
    requires IsName(owner)
    ensures ParseGithubUrl(RepoUrl(secure, owner, ".git")) == Err(FetchFailed(GitHubFetchError(NO_OWNER_REPO, 400)))
  {
    PreparedGitOnly(secure, owner);
    GithubIsGithubHost();
    RejectsOwnerOnly(secure, "github.com", owner, "/");
  }

  lemma PreparedGitOnly(secure: bool, owner: string)
    ensures Prepare(RepoUrl(secure, owner, ".git")) == HostUrl(secure, "github.com", "/" + owner + "/")
  {
    assert IsName(".git");
    assert [] + ".git" == ".git";
    PrepareRepoUrl(secure, owner, ".git");
    RepoUrlAppend(secure, owner, [], ".git");
    DropGitAppended(RepoUrl(secure, owner, []));
    assert RepoPath(owner, []) == "/" + owner + "/";
  }
}
