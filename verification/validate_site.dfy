/**
 * The site validator: the manifest's routes must be well formed, listed in the
 * sitemap and backed by an `index.html`; every published page must use the shared
 * includes, keep its links root-relative and carry the basic SEO tags. The first
 * failing check ends the run.
 *
 * The filesystem is given as the set of existing paths, the walk as the list of files
 * it meets, file contents as a function of the path, `JSON.parse` as an optional
 * value, and the WHATWG URL parser as a function from text to host name and path.
 */
module ValidateSite {
  import opened Wrappers
  import opened Strings
  import opened Paths
  import opened Json
  import opened Patterns

  // ---------------------------------------------------------------------------
  // Constants
  // ---------------------------------------------------------------------------

  const IgnoreDirs: set<string> := {
    ".git", ".github", "node_modules", "partials", "templates", "scripts",
    "assets", "images", "img", "static", "dist", "build", "vendor"
  }

  const RequiredFiles: seq<string> := [
    "site-manifest.json", "sitemap.xml", "partials/header.html", "partials/footer.html",
    "js/include-partials.js"
  ]

  // ---------------------------------------------------------------------------
  // Routes and paths
  // ---------------------------------------------------------------------------

  /** `ensureFolderRoute`. */
  predicate EnsureFolderRoute(p: string) {
    p == "/" || EndsWith(p, "/")
  }

  /** `shouldIgnorePath`. */
  predicate ShouldIgnorePath(rel: string) {
    HasSegmentIn(rel, IgnoreDirs)
  }

  const IndexFile := "index.html"

  /** The file that must exist for a route other than `/`: `<folder>/index.html`. */
  function RouteFile(route: string): string {
    StripTrailingSlashes(StripLeadingSlashes(route)) + "/" + IndexFile
  }

  /** The route `/d/` of a directory `d` is backed by `d/index.html`. */
  lemma RouteFileOfDir(d: string)
    requires d != [] && d[0] != '/' && d[|d| - 1] != '/'
    ensures RouteFile("/" + d + "/") == d + "/" + IndexFile
  {
    var r := "/" + d + "/";
    var inner := StripLeadingSlashes(r);
    assert StripLeadingSlashes(r) == StripLeadingSlashes(r[1..]);
    assert r[1..] == d + "/";
    assert inner == d + "/";
    assert StripTrailingSlashes(d + "/") == StripTrailingSlashes(d);
  }

  /** `listPublishedHtmlFiles`: the `.html` files (in any case) outside the ignored directories. */
  function PublishedHtml(files: seq<string>): (r: seq<string>)
    ensures forall f :: f in r <==> f in files && EndsWith(Lower(BaseName(f)), ".html") && !ShouldIgnorePath(f)
  {
    if files == [] then []
    else
      var rest := PublishedHtml(files[1..]);
      if EndsWith(Lower(BaseName(files[0])), ".html") && !ShouldIgnorePath(files[0]) then [files[0]] + rest
      else rest
  }

  // ---------------------------------------------------------------------------
  // URL comparison
  // ---------------------------------------------------------------------------

  /** What the URL parser yields: `u.hostname` and `u.pathname`. */
  datatype UrlParts = UrlParts(hostname: string, pathname: string)

  /** Lower-cased host name without one leading `www.`. */
  function NormalizeHost(hostname: string): string {
    var host := Lower(hostname);
    if StartsWith(host, "www.") then host[4..] else host
  }

  predicate AllAsciiAlnum(s: string) {
    forall k :: 0 <= k < |s| ==> IsAsciiAlnum(s[k])
  }

  /** `/\.[a-z0-9]+$/i.test(pathname)`: the path ends in a file extension. */
  predicate LooksLikeFile(path: string) {
    exists k | 0 <= k < |path| - 1 :: path[k] == '.' && AllAsciiAlnum(path[k + 1..])
  }

  /** A path that is not `/`, does not end in `/` and has no extension gains a `/`. */
  function NormalizePath(pathname: string): string {
    var path := if pathname == "" then "/" else pathname;
    if !LooksLikeFile(path) && path != "/" && !EndsWith(path, "/") then path + "/" else path
  }

  /** `normalizeUrlForCompare`: blank text has the key `""`; otherwise host and path, normalised. */
  function NormalizeUrlForCompare(input: string, parse: string -> UrlParts): (key: string)
    ensures key == "" <==> Trim(input) == ""
    ensures key != "" ==> StartsWith(key, NormalizeHost(parse(Trim(input)).hostname))
    ensures key != "" ==> EndsWith(key, NormalizePath(parse(Trim(input)).pathname))
  {
    var s := Trim(input);
    if s == "" then "" else NormalizeHost(parse(s).hostname) + NormalizePath(parse(s).pathname)
  }

  /** A host with a leading `www.` (in any case) compares equal to the bare host. */
  lemma WwwIsIgnored(host: string)
    requires !StartsWith(Lower(host), "www.")
    ensures NormalizeHost("www." + host) == NormalizeHost(host) == Lower(host)
  {
    LowerAppend("www.", host);
    assert Lower("www.") == "www.";
    assert Lower("www." + host)[4..] == Lower(host);
  }

  lemma SlashIsNotFile(path: string)
    ensures !LooksLikeFile(path + "/")
  {
    var p := path + "/";
    forall k | 0 <= k < |p| - 1
      ensures !(p[k] == '.' && AllAsciiAlnum(p[k + 1..]))
    {
      assert p[k + 1..][|p| - k - 2] == '/';
    }
  }

  /**
   * A normalised path is `/`, ends in `/`, or looks like a file; it is the path
   * itself or the path with a `/` added; and normalising again changes nothing.
   */
  lemma NormalizePathFacts(pathname: string)
    ensures var n := NormalizePath(pathname);
      (n == "/" || EndsWith(n, "/") || LooksLikeFile(n)) &&
      (pathname != "" ==> n == pathname || n == pathname + "/") &&
      NormalizePath(n) == n
  {
    var path := if pathname == "" then "/" else pathname;
    if !LooksLikeFile(path) && path != "/" && !EndsWith(path, "/") {
      SlashIsNotFile(path);
    }
  }

  /** A folder route compares equal with or without its trailing slash. */
  lemma TrailingSlashIsIgnored(path: string)
    requires path != "" && !LooksLikeFile(path) && !EndsWith(path, "/")
    ensures NormalizePath(path) == NormalizePath(path + "/")
  {
    SlashIsNotFile(path);
    assert EndsWith(path + "/", "/");
  }

  /** A host and a path joined: the host holds no `/` and the path starts with one. */
  lemma HostPathSplit(h1: string, p1: string, h2: string, p2: string)
    requires '/' !in h1 && '/' !in h2 && p1 != [] && p1[0] == '/' && p2 != [] && p2[0] == '/'
    ensures h1 + p1 == h2 + p2 <==> h1 == h2 && p1 == p2
  {
    if h1 + p1 == h2 + p2 {
      var n := if |h1| < |h2| then |h1| else |h2|;
      assert (h1 + p1)[n] == (h2 + p2)[n];
      assert |h1| == |h2|;
      assert h1 == (h1 + p1)[..|h1|];
      assert h2 == (h2 + p2)[..|h2|];
      assert p1 == (h1 + p1)[|h1|..];
      assert p2 == (h2 + p2)[|h2|..];
    }
  }

  /**
   * For URLs whose parsed host has no `/` and whose parsed path starts with `/`, as a
   * parsed `http(s)` URL's do, two non-blank inputs compare equal exactly when their hosts
   * agree once lower-cased and rid of one leading `www.`, and their paths agree once
   * folder paths end in `/`.
   */
  lemma SameKeyIff(a: string, b: string, parse: string -> UrlParts)
    requires Trim(a) != "" && Trim(b) != ""
    requires '/' !in parse(Trim(a)).hostname && '/' !in parse(Trim(b)).hostname
    requires StartsWith(parse(Trim(a)).pathname, "/") && StartsWith(parse(Trim(b)).pathname, "/")
    ensures var ua, ub := parse(Trim(a)), parse(Trim(b));
      NormalizeUrlForCompare(a, parse) == NormalizeUrlForCompare(b, parse) <==>
        NormalizeHost(ua.hostname) == NormalizeHost(ub.hostname) &&
        NormalizePath(ua.pathname) == NormalizePath(ub.pathname)
  {
    var ua, ub := parse(Trim(a)), parse(Trim(b));
    HostHasNoSlash(ua.hostname);
    HostHasNoSlash(ub.hostname);
    PathStartsWithSlash(ua.pathname);
    PathStartsWithSlash(ub.pathname);
    HostPathSplit(NormalizeHost(ua.hostname), NormalizePath(ua.pathname),
                  NormalizeHost(ub.hostname), NormalizePath(ub.pathname));
  }

  lemma HostHasNoSlash(hostname: string)
    requires '/' !in hostname
    ensures '/' !in NormalizeHost(hostname)
  {
    var host := Lower(hostname);
    assert forall k :: 0 <= k < |host| ==> host[k] != '/';
  }

  lemma PathStartsWithSlash(pathname: string)
    requires StartsWith(pathname, "/")
    ensures NormalizePath(pathname) != [] && NormalizePath(pathname)[0] == '/'
  {
    assert pathname[0] == '/';
  }

  // ---------------------------------------------------------------------------
  // Global matches: `<loc>` entries and `href` attributes
  // ---------------------------------------------------------------------------

  /** The two global patterns the validator iterates over. */
  datatype Scanner =
    | LocTags    // /<loc>\s*([^<]+?)\s*<\/loc>/gi, the capture trimmed
    | HrefAttrs  // /href=["']([^"']+)["']/g

  const Quotes: set<char> := {'"', '\''}

  /** The longest prefix of `s` without a character of `cs`. */
  function LeadingOutside(s: string, cs: set<char>): (n: nat)
    ensures n <= |s| && forall k :: 0 <= k < n ==> s[k] !in cs
    ensures n < |s| ==> s[n] in cs
  {
    if s != [] && s[0] !in cs then 1 + LeadingOutside(s[1..], cs) else 0
  }

  /** A match and the position just after it. */
  datatype Capture = Capture(text: string, end: nat)

  /** `<loc>` at the start of `t`, its letters in either case (the `i` flag). */
  predicate LocOpensAt(t: string) {
    |t| >= 5 && t[0] == '<' && LowerChar(t[1]) == 'l' && LowerChar(t[2]) == 'o' &&
    LowerChar(t[3]) == 'c' && t[4] == '>'
  }

  /** `</loc>` at position `q` of `t`, its letters in either case. */
  predicate LocClosesAt(t: string, q: nat) {
    q + 6 <= |t| && t[q] == '<' && t[q + 1] == '/' && LowerChar(t[q + 2]) == 'l' &&
    LowerChar(t[q + 3]) == 'o' && LowerChar(t[q + 4]) == 'c' && t[q + 5] == '>'
  }

  /** `href=` and a quote at the start of `t`. */
  predicate HrefOpensAt(t: string) {
    |t| >= 6 && t[0] == 'h' && t[1] == 'r' && t[2] == 'e' && t[3] == 'f' && t[4] == '=' && t[5] in Quotes
  }

  /**
   * A match anchored at the start of `t`.
   *
   * `<loc>`: neither `[^<]` nor `\s` crosses a `<`, so the closing tag must start at
   * the first `<` after the opening one, with at least one character between; the
   * capture is that content less some surrounding whitespace, so once trimmed it is
   * the trimmed content.
   *
   * `href`: `[^"']+` then a quote takes every character up to the next quote of
   * either kind, and there must be one.
   */
  function MatchStart(sc: Scanner, t: string): (r: Option<Capture>)
    ensures r.Some? ==> 0 < r.value.end <= |t|
  {
    match sc
    case LocTags =>
      if !LocOpensAt(t) || '<' !in t[5..] then None
      else
        var q := 5 + FirstIndexOf(t[5..], '<');
        if q == 5 || !LocClosesAt(t, q) then None
        else Some(Capture(Trim(t[5..q]), q + 6))
    case HrefAttrs =>
      if !HrefOpensAt(t) then None
      else
        var n := LeadingOutside(t[6..], Quotes);
        if n == 0 || |t| <= 6 + n then None
        else Some(Capture(t[6..6 + n], 7 + n))
  }

  /** A match moved `n` characters to the right. */
  function Shift(r: Option<Capture>, n: nat): (r': Option<Capture>)
    ensures r'.Some? <==> r.Some?
    ensures r'.Some? ==> r'.value == Capture(r.value.text, r.value.end + n)
  {
    match r
    case None => None
    case Some(c) => Some(Capture(c.text, c.end + n))
  }

  /** The leftmost match in `t`, its end counted from the start of `t`. */
  function Find(sc: Scanner, t: string): (r: Option<Capture>)
    ensures r.Some? ==> 0 < r.value.end <= |t|
    decreases |t|
  {
    if t == [] then None
    else
      match MatchStart(sc, t)
      case Some(c) => Some(c)
      case None => Shift(Find(sc, t[1..]), 1)
  }

  /**
   * `re.exec(s)` with `lastIndex = p`: the leftmost match starting at `p` or later.
   * Neither pattern looks behind its start or anchors to the start of the string, so
   * this is the search of `s[p..]`.
   */
  function FindFrom(sc: Scanner, s: string, p: nat): (r: Option<Capture>)
    requires p <= |s|
    ensures r.Some? ==> p < r.value.end <= |s|
  {
    Shift(Find(sc, s[p..]), p)
  }

  /** Every capture in `t`, in document order; each search resumes where the last match ended. */
  function All(sc: Scanner, t: string): seq<string>
    decreases |t|
  {
    match Find(sc, t)
    case None => []
    case Some(c) => [c.text] + All(sc, t[c.end..])
  }

  /** When there is a match, the matches are its text and the matches after its end. */
  lemma AllStep(sc: Scanner, t: string)
    requires Find(sc, t).Some?
    ensures All(sc, t) == [Find(sc, t).value.text] + All(sc, t[Find(sc, t).value.end..])
  {
  }

  /** The matches from `p` on: the one found from `p`, then those after its end. */
  lemma AllFrom(sc: Scanner, s: string, p: nat)
    requires p <= |s| && FindFrom(sc, s, p).Some?
    ensures All(sc, s[p..]) == [FindFrom(sc, s, p).value.text] + All(sc, s[FindFrom(sc, s, p).value.end..])
  {
    var t := s[p..];
    var c := Find(sc, t).value;
    var m := FindFrom(sc, s, p).value;
    assert m.text == c.text && m.end == p + c.end;
    DropTwice(s, p, c.end);
    assert s[m.end..] == t[c.end..];
    AllStep(sc, t);
  }

  /** `extractSitemapLocs`: the `exec` loop collecting each `<loc>` text. */
  method ExtractSitemapLocs(xml: string) returns (locs: seq<string>)
    ensures locs == All(LocTags, xml)
  {
    locs := [];
    var lastIndex := 0;
    assert xml[lastIndex..] == xml;
    while true
      invariant lastIndex <= |xml|
      invariant locs + All(LocTags, xml[lastIndex..]) == All(LocTags, xml)
      decreases |xml| - lastIndex
    {
      var m := FindFrom(LocTags, xml, lastIndex);
      if m.None? {
        return;
      }
      AllFrom(LocTags, xml, lastIndex);
      Assoc(locs, [m.value.text], All(LocTags, xml[m.value.end..]));
      locs := locs + [m.value.text];
      lastIndex := m.value.end;
    }
  }

  /** Every extracted `<loc>` text is trimmed and holds no `<`. */
  lemma {:induction false} LocsAreClean(xml: string)
    ensures forall k :: 0 <= k < |All(LocTags, xml)| ==>
      var l := All(LocTags, xml)[k];
      '<' !in l && (l == [] || (!IsSpace(l[0]) && !IsSpace(l[|l| - 1])))
    decreases |xml|
  {
    match Find(LocTags, xml)
    case None =>
    case Some(c) =>
      LocsAreClean(xml[c.end..]);
      FoundLocIsClean(xml);
  }

  /** A `<loc>` capture is trimmed and holds no `<`. */
  lemma LocCaptureIsClean(t: string)
    requires MatchStart(LocTags, t).Some?
    ensures var l := MatchStart(LocTags, t).value.text;
      '<' !in l && (l == [] || (!IsSpace(l[0]) && !IsSpace(l[|l| - 1])))
  {
    var q := 5 + FirstIndexOf(t[5..], '<');
    var content := t[5..q];
    assert content == t[5..][..q - 5];
    TrimCuts(content);
    TrimKeepsOut(content, '<');
  }

  lemma {:induction false} FoundLocIsClean(t: string)
    requires Find(LocTags, t).Some?
    ensures var l := Find(LocTags, t).value.text;
      '<' !in l && (l == [] || (!IsSpace(l[0]) && !IsSpace(l[|l| - 1])))
    decreases |t|
  {
    if MatchStart(LocTags, t).Some? {
      LocCaptureIsClean(t);
    } else {
      FoundLocIsClean(t[1..]);
    }
  }

  /** The `href` values of a page, in document order (`matchAll`). */
  function Hrefs(html: string): seq<string> {
    All(HrefAttrs, html)
  }

  // ---------------------------------------------------------------------------
  // Page checks
  // ---------------------------------------------------------------------------

  const HeaderInclude := "data-include=\"/partials/header.html\""
  const FooterInclude := "data-include=\"/partials/footer.html\""
  const IncludeScript := "src=\"/js/include-partials.js\""

  /** `(href|src)=["'](\.\.\/|\.\/)` for one attribute and one prefix. */
  function RelativeLinkPattern(attr: string, prefix: string): seq<Term> {
    Text(attr + "=") + [One(OneOf(Quotes))] + Text(prefix)
  }

  /** `badRelative.test(html)`. */
  predicate HasRelativeLink(html: string) {
    Occurs(RelativeLinkPattern("href", "../"), html, false) ||
    Occurs(RelativeLinkPattern("href", "./"), html, false) ||
    Occurs(RelativeLinkPattern("src", "../"), html, false) ||
    Occurs(RelativeLinkPattern("src", "./"), html, false)
  }

  /** `(href|src)=["'][^"']+\.html(["'#?]|$)` for one attribute, ignoring case. */
  function HtmlLinkPattern(attr: string): seq<Term> {
    Text(attr + "=") + [One(OneOf(Quotes)), Plus(NoneOf(Quotes))] + Text(".html") +
    [OneOfOrEnd({'"', '\'', '#', '?'})]
  }

  /** `badHtmlLinks.test(html)`. */
  predicate HasHtmlLink(html: string) {
    Occurs(HtmlLinkPattern("href"), html, true) || Occurs(HtmlLinkPattern("src"), html, true)
  }

  /** `<title>[^<]+<\/title>`, ignoring case. */
  const TitlePattern: seq<Term> := Text("<title>") + [Plus(NoneOf({'<'}))] + Text("</title>")

  /** `<(tag)\s+(attr)=["'](value)["']\s+(attr2)=["'][^"']+["']\s*\/?>`, ignoring case. */
  function TagPattern(tag: string, attr: string, value: string, attr2: string): seq<Term> {
    Text("<" + tag) + [Plus(Space)] + Text(attr + "=") + [One(OneOf(Quotes))] + Text(value) +
    [One(OneOf(Quotes)), Plus(Space)] + Text(attr2 + "=") +
    [One(OneOf(Quotes)), Plus(NoneOf(Quotes)), One(OneOf(Quotes)), Star(Space), Opt(Char('/'))] + Text(">")
  }

  /** The meta description and canonical link patterns. */
  const MetaDescriptionPattern: seq<Term> := TagPattern("meta", "name", "description", "content")
  const CanonicalPattern: seq<Term> := TagPattern("link", "rel", "canonical", "href")

  /** The link rule: external schemes, fragments and blank values are free; the rest must start at `/`. */
  predicate HrefAllowed(href: string) {
    StartsWith(href, "http://") || StartsWith(href, "https://") || StartsWith(href, "mailto:") ||
    StartsWith(href, "tel:") || StartsWith(href, "#") || StartsWith(href, "javascript:") ||
    Trim(href) == "" || StartsWith(href, "/")
  }

  /** The index of the first `href` at or after `i` that breaks the link rule. */
  function FirstBadHref(hrefs: seq<string>, i: nat): (r: Option<nat>)
    requires i <= |hrefs|
    ensures r.None? <==> forall k :: i <= k < |hrefs| ==> HrefAllowed(hrefs[k])
    ensures r.Some? ==>
      i <= r.value < |hrefs| && !HrefAllowed(hrefs[r.value]) &&
      forall k :: i <= k < r.value ==> HrefAllowed(hrefs[k])
    decreases |hrefs| - i
  {
    if i == |hrefs| then None
    else if !HrefAllowed(hrefs[i]) then Some(i)
    else FirstBadHref(hrefs, i + 1)
  }

  /** A non-blank relative link such as `about/` breaks the rule; a root-relative one does not. */
  lemma HrefRule(href: string)
    requires Trim(href) != "" && href[0] != '/' && href[0] != '#'
    requires !StartsWith(href, "http://") && !StartsWith(href, "https://") && !StartsWith(href, "mailto:")
    requires !StartsWith(href, "tel:") && !StartsWith(href, "javascript:")
    ensures !HrefAllowed(href) && HrefAllowed("/" + href)
  {
  }

  datatype PageProblem =
    | MissingHeaderInclude
    | MissingFooterInclude
    | MissingIncludeScript
    | RelativeLink
    | HtmlLink
    | NonRootHref(href: string)
    | MissingTitle
    | MissingMetaDescription
    | MissingCanonical

  /** The page pulls in the shared header, the shared footer and the include script. */
  predicate HasIncludes(html: string) {
    Contains(html, HeaderInclude) && Contains(html, FooterInclude) && Contains(html, IncludeScript)
  }

  /** No relative link, no link to an `.html` file, and every `href` root-relative or external. */
  predicate LinksAreRooted(html: string) {
    !HasRelativeLink(html) && !HasHtmlLink(html) && forall k :: 0 <= k < |Hrefs(html)| ==> HrefAllowed(Hrefs(html)[k])
  }

  /** The head has a title, a meta description and a canonical link. */
  predicate HasHeadTags(html: string) {
    Occurs(TitlePattern, html, true) && Occurs(MetaDescriptionPattern, html, true) &&
    Occurs(CanonicalPattern, html, true)
  }

  /** The three include checks of a page, in order. */
  function CheckIncludes(html: string): (r: Option<PageProblem>)
    ensures r.None? <==> HasIncludes(html)
    ensures r == Some(MissingFooterInclude) ==> Contains(html, HeaderInclude)
    ensures r == Some(MissingIncludeScript) ==> Contains(html, HeaderInclude) && Contains(html, FooterInclude)
    ensures r.Some? ==> r.value.MissingHeaderInclude? || r.value.MissingFooterInclude? || r.value.MissingIncludeScript?
  {
    if !Contains(html, HeaderInclude) then Some(MissingHeaderInclude)
    else if !Contains(html, FooterInclude) then Some(MissingFooterInclude)
    else if !Contains(html, IncludeScript) then Some(MissingIncludeScript)
    else None
  }

  /** The link checks of a page, in order: relative links, links to `.html` files, then each `href`. */
  function CheckLinks(html: string): (r: Option<PageProblem>)
    ensures r.None? <==> LinksAreRooted(html)
    ensures r == Some(HtmlLink) ==> !HasRelativeLink(html)
    ensures r.Some? ==> r.value.RelativeLink? || r.value.HtmlLink? || r.value.NonRootHref?
    ensures r.Some? && r.value.NonRootHref? ==>
      !HasRelativeLink(html) && !HasHtmlLink(html) && r.value.href in Hrefs(html) && !HrefAllowed(r.value.href)
  {
    if HasRelativeLink(html) then Some(RelativeLink)
    else if HasHtmlLink(html) then Some(HtmlLink)
    else
      var hrefs := Hrefs(html);
      var bad := FirstBadHref(hrefs, 0);
      if bad.Some? then Some(NonRootHref(hrefs[bad.value])) else None
  }

  /** The head checks of a page, in order: title, meta description, canonical link. */
  function CheckHead(html: string): (r: Option<PageProblem>)
    ensures r.None? <==> HasHeadTags(html)
    ensures r == Some(MissingMetaDescription) ==> Occurs(TitlePattern, html, true)
    ensures r == Some(MissingCanonical) ==> Occurs(TitlePattern, html, true) && Occurs(MetaDescriptionPattern, html, true)
    ensures r.Some? ==> r.value.MissingTitle? || r.value.MissingMetaDescription? || r.value.MissingCanonical?
  {
    if !Occurs(TitlePattern, html, true) then Some(MissingTitle)
    else if !Occurs(MetaDescriptionPattern, html, true) then Some(MissingMetaDescription)
    else if !Occurs(CanonicalPattern, html, true) then Some(MissingCanonical)
    else None
  }

  /**
   * The checks of one published page, in order; `404.html` at the root is exempt. The
   * first failing check names the problem.
   */
  function CheckPage(rel: string, html: string): (r: Option<PageProblem>)
    ensures r.None? <==> rel == "404.html" || (HasIncludes(html) && LinksAreRooted(html) && HasHeadTags(html))
    ensures r.Some? && r.value.NonRootHref? ==> r.value.href in Hrefs(html) && !HrefAllowed(r.value.href)
    ensures r.Some? && (r.value.RelativeLink? || r.value.HtmlLink? || r.value.NonRootHref?) ==> HasIncludes(html)
    ensures r.Some? && (r.value.MissingTitle? || r.value.MissingMetaDescription? || r.value.MissingCanonical?) ==>
      HasIncludes(html) && LinksAreRooted(html)
  {
    if rel == "404.html" then None
    else if CheckIncludes(html).Some? then CheckIncludes(html)
    else if CheckLinks(html).Some? then CheckLinks(html)
    else CheckHead(html)
  }

  /** A page that links to `./x` is rejected, at the latest by the relative-link rule. */
  lemma RelativeLinkRejected(rel: string, html: string)
    requires rel != "404.html" && Contains(html, "href=\"./")
    ensures CheckPage(rel, html).Some?
  {
    var k :| 0 <= k <= |html| - |"href=\"./"| && OccursAt(html, "href=\"./", k);
    assert "href=\"./" == "href" + "=" + ['"'] + "./";
    LiteralClassLiteral("href" + "=", Quotes, "./", html, k, '"');
    assert MatchAt(RelativeLinkPattern("href", "./"), html, k, false);
  }

  // ---------------------------------------------------------------------------
  // The manifest and the sitemap
  // ---------------------------------------------------------------------------

  datatype Failure =
    | MissingRequiredFile(file: string)
    | ManifestUnparsable
    | ManifestNotObject
    | MissingBaseUrl
    | SectionsNotArray
    | PagesEmpty
    | PageNotString
    | PageNotRooted(page: string)
    | PageNotFolder(page: string)
    | SitemapWithoutLocs
    | SitemapMissingUrl(url: string)
    | MissingRouteFile(route: string, expected: string)
    | BadPage(file: string, problem: PageProblem)

  /** One manifest page passes the route-format checks. */
  predicate GoodPage(p: Json) {
    p.JString? && StartsWith(p.s, "/") && EnsureFolderRoute(p.s)
  }

  /** The route-format loop: the first page that is not a string, not rooted or not a folder route. */
  function CheckPages(pages: seq<Json>): (r: Option<Failure>)
    ensures r.None? <==> forall k :: 0 <= k < |pages| ==> GoodPage(pages[k])
    ensures r.Some? ==> r.value.PageNotString? || r.value.PageNotRooted? || r.value.PageNotFolder?
  {
    if pages == [] then None
    else
      var p := pages[0];
      if !p.JString? then Some(PageNotString)
      else if !StartsWith(p.s, "/") then Some(PageNotRooted(p.s))
      else if !EnsureFolderRoute(p.s) then Some(PageNotFolder(p.s))
      else
        var r := CheckPages(pages[1..]);
        assert forall k :: 1 <= k < |pages| ==> pages[k] == pages[1..][k - 1];
        r
  }

  /** The sitemap check: the first page whose absolute URL has no equal among the `<loc>` keys. */
  function MissingFromSitemap(pages: seq<string>, keys: set<string>, baseUrl: string,
                              resolve: (string, string) -> string, parse: string -> UrlParts): (r: Option<string>)
    ensures r.None? <==> forall k :: 0 <= k < |pages| ==>
      NormalizeUrlForCompare(resolve(pages[k], baseUrl), parse) in keys
    ensures r.Some? ==> exists k | 0 <= k < |pages| ::
      r.value == resolve(pages[k], baseUrl) && NormalizeUrlForCompare(r.value, parse) !in keys
  {
    if pages == [] then None
    else
      var url := resolve(pages[0], baseUrl);
      if NormalizeUrlForCompare(url, parse) !in keys then Some(url)
      else
        var r := MissingFromSitemap(pages[1..], keys, baseUrl, resolve, parse);
        assert forall k :: 1 <= k < |pages| ==> pages[k] == pages[1..][k - 1];
        r
  }

  /** A manifest route other than `/` whose `index.html` does not exist. */
  predicate LacksFile(page: string, existing: set<string>) {
    page != "/" && RouteFile(page) !in existing
  }

  /** The route-to-file loop: the first route other than `/` whose `index.html` is missing. */
  function FirstMissingRouteFile(pages: seq<string>, existing: set<string>, i: nat): (r: Option<nat>)
    requires i <= |pages|
    ensures r.Some? ==> i <= r.value < |pages| && LacksFile(pages[r.value], existing)
    ensures r.Some? ==> forall k :: i <= k < r.value ==> !LacksFile(pages[k], existing)
    ensures r.None? ==> forall k :: i <= k < |pages| ==> !LacksFile(pages[k], existing)
    decreases |pages| - i
  {
    if i == |pages| then None
    else if LacksFile(pages[i], existing) then Some(i)
    else FirstMissingRouteFile(pages, existing, i + 1)
  }

  /** The keys of the sitemap's `<loc>` entries. */
  function SitemapKeys(locs: seq<string>, parse: string -> UrlParts): set<string> {
    set k | 0 <= k < |locs| :: NormalizeUrlForCompare(locs[k], parse)
  }

  /** The page list of a manifest once its format checks have passed. */
  function PageStrings(pages: seq<Json>): (r: seq<string>)
    requires forall k :: 0 <= k < |pages| ==> pages[k].JString?
    ensures |r| == |pages| && forall k :: 0 <= k < |pages| ==> r[k] == pages[k].s
  {
    seq(|pages|, k requires 0 <= k < |pages| => pages[k].s)
  }

  /** The manifest passes the format checks: an object with `baseUrl`, `sections` and good `pages`. */
  predicate ManifestWellFormed(m: Json) {
    IsObject(m) && HasStringField(m, "baseUrl") &&
    Get(m, "sections").Some? && Get(m, "sections").value.JArray? &&
    Get(m, "pages").Some? && Get(m, "pages").value.JArray? && |Get(m, "pages").value.items| > 0 &&
    forall k :: 0 <= k < |Get(m, "pages").value.items| ==> GoodPage(Get(m, "pages").value.items[k])
  }

  /** The format half of `validateManifestAndSitemap`: the first check the manifest fails. */
  function ManifestProblem(manifest: Option<Json>): (r: Option<Failure>)
    ensures r.None? <==> manifest.Some? && ManifestWellFormed(manifest.value)
    ensures r.Some? ==>
      r.value.ManifestUnparsable? || r.value.ManifestNotObject? || r.value.MissingBaseUrl? ||
      r.value.SectionsNotArray? || r.value.PagesEmpty? || r.value.PageNotString? ||
      r.value.PageNotRooted? || r.value.PageNotFolder?
  {
    if manifest.None? then Some(ManifestUnparsable)
    else
      var m := manifest.value;
      if !IsObject(m) then Some(ManifestNotObject)
      else if !HasStringField(m, "baseUrl") then Some(MissingBaseUrl)
      else if Get(m, "sections").None? || !Get(m, "sections").value.JArray? then Some(SectionsNotArray)
      else if Get(m, "pages").None? || !Get(m, "pages").value.JArray? || |Get(m, "pages").value.items| == 0 then
        Some(PagesEmpty)
      else CheckPages(Get(m, "pages").value.items)
  }

  /** The routes of a well-formed manifest. */
  function ManifestPages(m: Json): (pages: seq<string>)
    requires ManifestWellFormed(m)
    ensures |pages| > 0
  {
    PageStrings(Get(m, "pages").value.items)
  }

  /**
   * The sitemap half of `validateManifestAndSitemap`: the sitemap has `<loc>` entries,
   * every route's URL is among them once both are normalised, and every route other
   * than `/` has its `index.html`.
   */
  function SitemapProblem(pages: seq<string>, baseUrl: string, sitemapXml: string, existing: set<string>,
                          resolve: (string, string) -> string, parse: string -> UrlParts): (r: Option<Failure>)
    ensures r.None? <==>
      |All(LocTags, sitemapXml)| > 0 &&
      MissingFromSitemap(pages, SitemapKeys(All(LocTags, sitemapXml), parse), baseUrl, resolve, parse).None? &&
      FirstMissingRouteFile(pages, existing, 0).None?
  {
    var locs := All(LocTags, sitemapXml);
    if |locs| == 0 then Some(SitemapWithoutLocs)
    else
      var missing := MissingFromSitemap(pages, SitemapKeys(locs, parse), baseUrl, resolve, parse);
      if missing.Some? then Some(SitemapMissingUrl(missing.value))
      else
        var noFile := FirstMissingRouteFile(pages, existing, 0);
        if noFile.Some? then Some(MissingRouteFile(pages[noFile.value], RouteFile(pages[noFile.value])))
        else None
  }

  /** `validateManifestAndSitemap`: the manifest's format first, then the sitemap and route files. */
  function ValidateManifestAndSitemap(manifest: Option<Json>, sitemapXml: string, existing: set<string>,
                                      resolve: (string, string) -> string,
                                      parse: string -> UrlParts): (r: Option<Failure>)
    ensures r.None? <==>
      manifest.Some? && ManifestWellFormed(manifest.value) &&
      SitemapProblem(ManifestPages(manifest.value), manifest.value.fields["baseUrl"].s, sitemapXml,
                     existing, resolve, parse).None?
  {
    var problem := ManifestProblem(manifest);
    if problem.Some? then problem
    else
      var m := manifest.value;
      SitemapProblem(ManifestPages(m), m.fields["baseUrl"].s, sitemapXml, existing, resolve, parse)
  }

  /** The first required file that does not exist. */
  function MissingRequired(files: seq<string>, existing: set<string>): (r: Option<string>)
    ensures r.None? <==> forall k :: 0 <= k < |files| ==> files[k] in existing
    ensures r.Some? ==> r.value in files && r.value !in existing
  {
    if files == [] then None
    else if files[0] !in existing then Some(files[0])
    else
      var r := MissingRequired(files[1..], existing);
      assert forall k :: 1 <= k < |files| ==> files[k] == files[1..][k - 1];
      r
  }

  /** `validateHtmlPages`: the first published page that fails a check. */
  function FirstBadPage(pages: seq<string>, read: string -> string): (r: Option<(string, PageProblem)>)
    ensures r.None? ==> forall k :: 0 <= k < |pages| ==> CheckPage(pages[k], read(pages[k])).None?
    ensures r.Some? ==> r.value.0 in pages && CheckPage(r.value.0, read(r.value.0)) == Some(r.value.1)
  {
    if pages == [] then None
    else
      var problem := CheckPage(pages[0], read(pages[0]));
      if problem.Some? then Some((pages[0], problem.value))
      else
        FirstBadPage(pages[1..], read)
  }

  /**
   * `main`: required files, then the manifest and sitemap, then every published page;
   * the first failure is the verdict, and `None` means the site passes.
   */
  function Validate(existing: set<string>, manifest: Option<Json>, sitemapXml: string, files: seq<string>,
                    read: string -> string, resolve: (string, string) -> string,
                    parse: string -> UrlParts): (r: Option<Failure>)
    ensures r.None? <==>
      MissingRequired(RequiredFiles, existing).None? &&
      ValidateManifestAndSitemap(manifest, sitemapXml, existing, resolve, parse).None? &&
      FirstBadPage(PublishedHtml(files), read).None?
  {
    var missing := MissingRequired(RequiredFiles, existing);
    if missing.Some? then Some(MissingRequiredFile(missing.value))
    else
      var manifestProblem := ValidateManifestAndSitemap(manifest, sitemapXml, existing, resolve, parse);
      if manifestProblem.Some? then manifestProblem
      else
        var bad := FirstBadPage(PublishedHtml(files), read);
        if bad.Some? then Some(BadPage(bad.value.0, bad.value.1)) else None
  }
}
