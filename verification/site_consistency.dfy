/**
 * How the two site scripts fit together: what the structure sync writes is what the
 * validator reads back. The `<loc>` entries of the generated sitemap are exactly the
 * absolute URLs of the routes, in order, and a manifest and sitemap produced by the
 * sync pass the validator's manifest, sitemap and route-file checks.
 */
module SiteConsistency {
  import opened Wrappers
  import opened Strings
  import opened Paths
  import opened Json
  import S = SyncStructure
  import V = ValidateSite

  // ---------------------------------------------------------------------------
  // Reading `<loc>` entries out of concatenated text
  // ---------------------------------------------------------------------------

  /** No `<loc>` tag can start inside `a`: each `<` in it is followed, inside `a`, by something other than `l`. */
  predicate NoLocStart(a: string) {
    forall p :: 0 <= p < |a| && a[p] == '<' ==> p + 1 < |a| && LowerChar(a[p + 1]) != 'l'
  }

  lemma NoLocStartAppend(a: string, b: string)
    requires NoLocStart(a) && NoLocStart(b)
    ensures NoLocStart(a + b)
  {
    forall p | 0 <= p < |a + b| && (a + b)[p] == '<'
      ensures p + 1 < |a + b| && LowerChar((a + b)[p + 1]) != 'l'
    {
      if p < |a| {
        assert a[p] == '<';
      } else {
        assert b[p - |a|] == '<';
      }
    }
  }

  /** Text without `<` has no tag start. */
  lemma NoLocStartPlain(a: string)
    requires '<' !in a
    ensures NoLocStart(a)
  {
  }

  /** A search through a prefix without a tag start finds what the search of the rest finds, shifted. */
  lemma {:induction false} FindSkipsPrefix(a: string, b: string)
    requires NoLocStart(a)
    ensures V.Find(V.LocTags, a + b) == V.Shift(V.Find(V.LocTags, b), |a|)
    decreases |a|
  {
    if a == [] {
      assert a + b == b;
      ShiftByNothing(V.Find(V.LocTags, b));
    } else {
      var t := a + b;
      NoLocOpenAtStart(a, b);
      TailAppend(a, b);
      NoLocStartTail(a);
      FindSkipsPrefix(a[1..], b);
      var r := V.Find(V.LocTags, b);
      assert V.Find(V.LocTags, t) == V.Shift(V.Shift(r, |a| - 1), 1);
      ShiftTwice(r, |a| - 1, 1);
    }
  }

  /** No `<loc>` opens at the start of a text that begins with a part without a tag start. */
  lemma NoLocOpenAtStart(a: string, b: string)
    requires NoLocStart(a) && a != []
    ensures !V.LocOpensAt(a + b)
  {
    if a[0] == '<' {
      assert 1 < |a| && LowerChar(a[1]) != 'l';
      assert (a + b)[1] == a[1];
    }
  }

  lemma NoLocStartTail(a: string)
    requires NoLocStart(a) && a != []
    ensures NoLocStart(a[1..])
  {
    forall p | 0 <= p < |a[1..]| && a[1..][p] == '<'
      ensures p + 1 < |a[1..]| && LowerChar(a[1..][p + 1]) != 'l'
    {
      assert a[p + 1] == '<';
    }
  }

  lemma ShiftTwice(r: Option<V.Capture>, m: nat, n: nat)
    ensures V.Shift(V.Shift(r, m), n) == V.Shift(r, m + n)
  {
  }

  lemma ShiftByNothing(r: Option<V.Capture>)
    ensures V.Shift(r, 0) == r
  {
  }

  /** A prefix without a tag start contributes no `<loc>` entry. */
  lemma SkipPrefix(a: string, b: string)
    requires NoLocStart(a)
    ensures V.All(V.LocTags, a + b) == V.All(V.LocTags, b)
  {
    FindSkipsPrefix(a, b);
    match V.Find(V.LocTags, b)
    case None =>
    case Some(c) =>
      DropAppend(a, b, c.end);
  }

  /** What `new URL(route, baseUrl).toString()` always gives: non-empty, no `<`, no whitespace. */
  predicate CleanUrl(u: string) {
    u != [] && '<' !in u && forall k :: 0 <= k < |u| ==> !IsSpace(u[k])
  }

  const LocOpen := S.Tag("loc")
  const LocClose := S.Tag("/" + "loc")

  /** A `<loc>` element with a clean URL yields that URL, and reading goes on after it. */
  lemma LocElement(u: string, rest: string)
    requires CleanUrl(u)
    ensures V.All(V.LocTags, LocOpen + u + LocClose + rest) == [u] + V.All(V.LocTags, rest)
  {
    var t := LocOpen + u + LocClose + rest;
    var q := 5 + |u|;
    assert |LocOpen| == 5 && |LocClose| == 6;
    assert V.LocOpensAt(t);
    PartsOfFour(LocOpen, u, LocClose, rest);
    assert forall k :: 0 <= k < |u| ==> t[5..][k] == u[k];
    FirstIndexAt(t[5..], |u|, '<');
    assert V.LocClosesAt(t, q);
    TrimOfNonSpace(u);
    assert V.MatchStart(V.LocTags, t) == Some(V.Capture(u, q + 6));
  }

  // ---------------------------------------------------------------------------
  // The sitemap text
  // ---------------------------------------------------------------------------

  /** Every line followed by a newline. */
  function Unlines(lines: seq<string>): string {
    if lines == [] then "" else lines[0] + "\n" + Unlines(lines[1..])
  }

  lemma {:induction false} UnlinesAppend(a: seq<string>, b: seq<string>)
    ensures Unlines(a + b) == Unlines(a) + Unlines(b)
    decreases |a|
  {
    if a == [] {
      assert a + b == b;
    } else {
      assert (a + b)[1..] == a[1..] + b;
      UnlinesAppend(a[1..], b);
    }
  }

  /** Joining with newlines and adding a final one puts a newline after every line. */
  lemma {:induction false} JoinIsUnlines(lines: seq<string>)
    requires lines != []
    ensures Join(lines, '\n') + "\n" == Unlines(lines)
    decreases |lines|
  {
    if |lines| > 1 {
      JoinIsUnlines(lines[1..]);
    }
  }

  /** The absolute URLs of the routes, in route order. */
  function Urls(baseUrl: string, routes: seq<string>, resolve: (string, string) -> string): (r: seq<string>)
    ensures |r| == |routes| && forall k :: 0 <= k < |routes| ==> r[k] == resolve(routes[k], baseUrl)
  {
    seq(|routes|, k requires 0 <= k < |routes| => resolve(routes[k], baseUrl))
  }

  /** A tag other than `<loc>` at the start of a text without further `<`. */
  /** A tag other than `<loc>` whose name holds no `<` has no tag start. */
  lemma TagWithoutLoc(name: string)
    requires name != [] && name[0] != 'l' && name[0] != 'L' && '<' !in name
    ensures NoLocStart(S.Tag(name))
  {
    var t := S.Tag(name);
    assert t[1] == name[0];
    forall p | 0 < p < |t|
      ensures t[p] != '<'
    {
      if p <= |name| {
        assert t[p] == name[p - 1];
      }
    }
  }

  /** Lines without a tag start stay so with a newline after each. */
  lemma {:induction false} NoLocStartUnlines(lines: seq<string>)
    requires forall k :: 0 <= k < |lines| ==> NoLocStart(lines[k])
    ensures NoLocStart(Unlines(lines))
    decreases |lines|
  {
    if lines != [] {
      NoLocStartUnlines(lines[1..]);
      NoLocStartPlain("\n");
      NoLocStartAppend(lines[0], "\n");
      NoLocStartAppend(lines[0] + "\n", Unlines(lines[1..]));
    }
  }

  lemma PriorityIsPlain(route: string)
    ensures '<' !in S.PriorityForRoute(route)
  {
  }

  /** The XML declaration holds no tag start. */
  lemma DeclarationLine()
    ensures NoLocStart(S.XmlDeclaration)
  {
    var version, encoding := "?xml version=\"1.0\"", " encoding=\"UTF-8\"?";
    assert '<' !in version;
    assert '<' !in encoding;
    TagWithoutLoc(version + encoding);
  }

  /** The opening `<urlset>` line holds no tag start. */
  lemma UrlsetOpenLine()
    ensures NoLocStart(S.UrlsetOpen)
  {
    var lead := "urlset xmlns=\"";
    assert '<' !in lead && '<' !in "\"";
    assert '<' !in S.SitemapNamespace;
    TagWithoutLoc(lead + S.SitemapNamespace + "\"");
  }

  /** The lines around the entries hold no tag start. */
  lemma FrameLines()
    ensures NoLocStart(S.XmlDeclaration) && NoLocStart(S.UrlsetOpen) && NoLocStart(S.UrlsetClose)
  {
    DeclarationLine();
    UrlsetOpenLine();
    TagWithoutLoc("/urlset");
  }

  /** An element other than `<loc>` whose name and text hold no `<` has no tag start. */
  lemma ElementLine(tag: string, text: string)
    requires tag != [] && tag[0] != 'l' && tag[0] != 'L' && '<' !in tag && '<' !in text
    ensures NoLocStart("    " + S.Element(tag, text))
  {
    TagWithoutLoc(tag);
    assert ("/" + tag)[0] == '/';
    TagWithoutLoc("/" + tag);
    NoLocStartPlain(text);
    NoLocStartAppend(S.Tag(tag), text);
    NoLocStartAppend(S.Tag(tag) + text, S.Tag("/" + tag));
    NoLocStartPlain("    ");
    NoLocStartAppend("    ", S.Element(tag, text));
  }

  /** The lines of an entry after its `<loc>` line hold no tag start. */
  lemma EntryTail(u: string, priority: string)
    requires '<' !in priority
    ensures NoLocStart("\n" + Unlines(S.UrlEntry(u, priority)[2..]))
  {
    var rest := S.UrlEntry(u, priority)[2..];
    ElementLine("changefreq", "weekly");
    ElementLine("priority", priority);
    TagWithoutLoc("/url");
    NoLocStartPlain("  ");
    NoLocStartAppend("  ", S.Tag("/url"));
    assert rest == ["    " + S.Element("changefreq", "weekly"), "    " + S.Element("priority", priority), S.UrlClose];
    NoLocStartUnlines(rest);
    NoLocStartPlain("\n");
    NoLocStartAppend("\n", Unlines(rest));
  }

  /** An entry's text is its opening line, the indented `<loc>` element, and the rest. */
  lemma EntryLayout(u: string, priority: string)
    ensures Unlines(S.UrlEntry(u, priority)) ==
      (S.UrlOpen + "\n" + "    ") + (LocOpen + u + LocClose + ("\n" + Unlines(S.UrlEntry(u, priority)[2..])))
  {
    var e := S.UrlEntry(u, priority);
    var x, tail := LocOpen + u + LocClose, "\n" + Unlines(e[2..]);
    assert Unlines(e) == (S.UrlOpen + "\n") + Unlines(e[1..]);
    assert e[1..][1..] == e[2..];
    assert Unlines(e[1..]) == (("    " + x) + "\n") + Unlines(e[2..]);
    Assoc("    " + x, "\n", Unlines(e[2..]));
    Assoc("    ", x, tail);
    Assoc(S.UrlOpen + "\n", "    ", x + tail);
  }

  lemma UrlsOfLast(baseUrl: string, routes: seq<string>, resolve: (string, string) -> string)
    requires routes != []
    ensures Urls(baseUrl, routes, resolve) ==
      Urls(baseUrl, routes[..|routes| - 1], resolve) + [resolve(routes[|routes| - 1], baseUrl)]
  {
  }

  lemma EntriesTextOfLast(baseUrl: string, routes: seq<string>, resolve: (string, string) -> string)
    requires routes != []
    ensures var n := |routes| - 1;
      Unlines(S.UrlEntries(baseUrl, routes, resolve)) ==
      Unlines(S.UrlEntries(baseUrl, routes[..n], resolve)) +
      Unlines(S.UrlEntry(resolve(routes[n], baseUrl), S.PriorityForRoute(routes[n])))
  {
    var n := |routes| - 1;
    UnlinesAppend(S.UrlEntries(baseUrl, routes[..n], resolve),
                  S.UrlEntry(resolve(routes[n], baseUrl), S.PriorityForRoute(routes[n])));
  }

  /** One entry with a clean URL yields that URL, and reading goes on after the entry. */
  lemma EntryYieldsUrl(u: string, priority: string, rest: string)
    requires CleanUrl(u) && '<' !in priority
    ensures V.All(V.LocTags, Unlines(S.UrlEntry(u, priority)) + rest) == [u] + V.All(V.LocTags, rest)
  {
    var lead, tail := S.UrlOpen + "\n" + "    ", "\n" + Unlines(S.UrlEntry(u, priority)[2..]);
    EntryTail(u, priority);
    EntryLayout(u, priority);
    TagWithoutLoc("url");
    NoLocStartPlain("  ");
    NoLocStartPlain("\n" + "    ");
    NoLocStartAppend("  ", S.Tag("url"));
    NoLocStartAppend(S.UrlOpen, "\n" + "    ");
    Assoc(S.UrlOpen, "\n", "    ");
    Assoc(lead, LocOpen + u + LocClose + tail, rest);
    Assoc(LocOpen + u + LocClose, tail, rest);
    SkipPrefix(lead, LocOpen + u + LocClose + (tail + rest));
    LocElement(u, tail + rest);
    SkipPrefix(tail, rest);
  }

  /** The entries of the routes yield their URLs, in order, before whatever follows. */
  lemma {:induction false} EntriesYieldUrls(baseUrl: string, routes: seq<string>,
                                            resolve: (string, string) -> string, rest: string)
    requires forall k :: 0 <= k < |routes| ==> CleanUrl(resolve(routes[k], baseUrl))
    ensures V.All(V.LocTags, Unlines(S.UrlEntries(baseUrl, routes, resolve)) + rest) ==
      Urls(baseUrl, routes, resolve) + V.All(V.LocTags, rest)
    decreases |routes|
  {
    if routes == [] {
      assert Unlines([]) + rest == rest;
    } else {
      var n := |routes| - 1;
      var prev := routes[..n];
      var u := resolve(routes[n], baseUrl);
      var priority := S.PriorityForRoute(routes[n]);
      var after := Unlines(S.UrlEntry(u, priority)) + rest;
      var front := Unlines(S.UrlEntries(baseUrl, prev, resolve));
      assert forall k :: 0 <= k < |prev| ==> prev[k] == routes[k];
      PriorityIsPlain(routes[n]);
      assert CleanUrl(u);
      calc {
        V.All(V.LocTags, Unlines(S.UrlEntries(baseUrl, routes, resolve)) + rest);
        { EntriesTextOfLast(baseUrl, routes, resolve);
          Assoc(front, Unlines(S.UrlEntry(u, priority)), rest); }
        V.All(V.LocTags, front + after);
        { EntriesYieldUrls(baseUrl, prev, resolve, after); }
        Urls(baseUrl, prev, resolve) + V.All(V.LocTags, after);
        { EntryYieldsUrl(u, priority, rest); }
        Urls(baseUrl, prev, resolve) + ([u] + V.All(V.LocTags, rest));
        { UrlsOfLast(baseUrl, routes, resolve);
          Assoc(Urls(baseUrl, prev, resolve), [u], V.All(V.LocTags, rest)); }
        Urls(baseUrl, routes, resolve) + V.All(V.LocTags, rest);
      }
    }
  }

  /** The sitemap text is the header lines, the entry lines and the closing line, each ended by a newline. */
  lemma SitemapTextParts(head: seq<string>, entries: seq<string>, closing: string)
    ensures S.SitemapText(head + entries + [closing]) == Unlines(head) + (Unlines(entries) + Unlines([closing]))
  {
    var lines := head + entries + [closing];
    JoinIsUnlines(lines);
    UnlinesAppend(head + entries, [closing]);
    UnlinesAppend(head, entries);
    Assoc(Unlines(head), Unlines(entries), Unlines([closing]));
  }

  /**
   * Reading the generated sitemap back gives exactly the absolute URL of every route,
   * in route order: the sync's `<loc>` lines and the validator's `<loc>` extraction
   * agree.
   */
  lemma SitemapRoundTrip(baseUrl: string, routes: seq<string>, resolve: (string, string) -> string)
    requires forall k :: 0 <= k < |routes| ==> CleanUrl(resolve(routes[k], baseUrl))
    ensures V.All(V.LocTags, S.SitemapText(S.SitemapOf(baseUrl, routes, resolve))) ==
      Urls(baseUrl, routes, resolve)
  {
    var head := [S.XmlDeclaration, S.UrlsetOpen];
    var entries := S.UrlEntries(baseUrl, routes, resolve);
    var closing := Unlines([S.UrlsetClose]);
    SitemapTextParts(head, entries, S.UrlsetClose);
    FrameLines();
    assert NoLocStart(Unlines(head)) by {
      NoLocStartUnlines(head);
    }
    assert NoLocStart(closing) by {
      NoLocStartUnlines([S.UrlsetClose]);
    }
    SkipPrefix(Unlines(head), Unlines(entries) + closing);
    EntriesYieldUrls(baseUrl, routes, resolve, closing);
    assert closing + "" == closing;
    SkipPrefix(closing, "");
  }

  // ---------------------------------------------------------------------------
  // The manifest and the route files
  // ---------------------------------------------------------------------------

  /** Every route the sync derives passes the validator's route-format checks. */
  lemma FolderRouteIsGoodPage(r: string)
    requires S.IsFolderRoute(r)
    ensures V.GoodPage(JString(r))
  {
    if r != "/" {
      assert r[..1] == "/";
      assert r[|r| - 1..] == "/";
    }
  }

  /**
   * The validator's expected file for the route of an `index.html` is that file itself,
   * when the walk lists normal relative paths, the name is spelled in lower case and the
   * cleaning keeps the file's directory.
   */
  lemma RouteFileOfRoute(c: S.Cleaning, f: string)
    requires NormalPath(f) && BaseName(f) == S.IndexName && S.DirKept(c, f)
    requires S.RouteOf(c, f).Some? && S.RouteOf(c, f).value != "/"
    ensures V.RouteFile(S.RouteOf(c, f).value) == f
  {
    RootFileRoute(c, f);
    var d := f[..LastIndexOf(f, '/')];
    assert NormalPath(d) && f == d + "/" + S.IndexName by {
      ParentOfNormalPath(f);
    }
    assert !S.ShouldIgnore(d) by {
      SegmentInChild(d, S.IndexName, S.IgnoreDirs);
    }
    assert d != [] && d[0] != '/' && d[|d| - 1] != '/' by {
      NormalPathStarts(d);
      NormalPathEnds(d);
    }
    assert d[0] == f[0];
    assert S.RouteOf(c, f) == Some("/" + d + "/") by {
      S.DirIndexRoute(c, d);
    }
    assert V.RouteFile("/" + d + "/") == f by {
      V.RouteFileOfDir(d);
      assert V.IndexFile == S.IndexName;
    }
  }

  /** A file name without a directory contributes the root route, if any. */
  lemma RootFileRoute(c: S.Cleaning, f: string)
    ensures '/' !in f && BaseName(f) == S.IndexName ==> S.RouteOf(c, f) == None || S.RouteOf(c, f) == Some("/")
  {
  }

  /** Every resolved route URL is clean. */
  predicate ResolvesClean(baseUrl: string, routes: seq<string>, resolve: (string, string) -> string) {
    forall k :: 0 <= k < |routes| ==> CleanUrl(resolve(routes[k], baseUrl))
  }

  /** Each route's normalised URL is among the keys of the sitemap that lists the routes' URLs. */
  lemma RoutesInSitemap(baseUrl: string, routes: seq<string>, resolve: (string, string) -> string,
                        parse: string -> V.UrlParts)
    ensures V.MissingFromSitemap(routes, V.SitemapKeys(Urls(baseUrl, routes, resolve), parse),
                                 baseUrl, resolve, parse).None?
  {
    var locs := Urls(baseUrl, routes, resolve);
    forall k | 0 <= k < |routes|
      ensures V.NormalizeUrlForCompare(resolve(routes[k], baseUrl), parse) in V.SitemapKeys(locs, parse)
    {
      assert locs[k] == resolve(routes[k], baseUrl);
    }
  }

  /** Every non-root route found by the walk is backed by a listed file. */
  lemma RouteFilesExist(c: S.Cleaning, files: seq<string>, less: (string, string) -> bool, existing: set<string>)
    requires S.StrictTotalOrder(less)
    requires forall i :: 0 <= i < |files| ==> files[i] in existing && NormalPath(files[i])
    requires forall i :: 0 <= i < |files| && S.IsIndexFile(files[i]) ==> BaseName(files[i]) == S.IndexName
    requires forall i :: 0 <= i < |files| ==> S.DirKept(c, files[i])
    ensures V.FirstMissingRouteFile(S.RoutesOf(c, files, less), existing, 0).None?
  {
    var routes := S.RoutesOf(c, files, less);
    S.IndexRoutesFacts(c, files, less);
    forall k | 0 <= k < |routes| && routes[k] != "/"
      ensures V.RouteFile(routes[k]) in existing
    {
      assert routes[k] in routes;
      var i :| 0 <= i < |files| && S.RouteOf(c, files[i]) == Some(routes[k]);
      RouteFileOfRoute(c, files[i]);
    }
  }

  /**
   * A manifest object with a non-empty `baseUrl`, a `sections` list and the folder routes
   * as `pages`, beside a sitemap whose `<loc>` entries are those routes' URLs and with
   * every route file present, passes the validator's manifest and sitemap checks.
   */
  lemma RoutesManifestValidates(m: Json, sitemapXml: string, routes: seq<string>, baseUrl: string,
                                existing: set<string>, resolve: (string, string) -> string,
                                parse: string -> V.UrlParts)
    requires m.JObject? && "baseUrl" in m.fields && m.fields["baseUrl"] == JString(baseUrl) && baseUrl != ""
    requires "sections" in m.fields && m.fields["sections"].JArray?
    requires "pages" in m.fields && m.fields["pages"] == StringArray(routes)
    requires routes != [] && forall k :: 0 <= k < |routes| ==> S.IsFolderRoute(routes[k])
    requires V.All(V.LocTags, sitemapXml) == Urls(baseUrl, routes, resolve)
    requires V.FirstMissingRouteFile(routes, existing, 0).None?
    ensures V.ValidateManifestAndSitemap(Some(m), sitemapXml, existing, resolve, parse).None?
  {
    assert Get(m, "pages") == Some(StringArray(routes));
    FolderRoutesPass(routes);
    assert V.ManifestWellFormed(m);
    assert V.ManifestPages(m) == routes;
    RoutesInSitemap(baseUrl, routes, resolve, parse);
  }

  /** A list of folder routes passes the route-format loop and reads back as itself. */
  lemma FolderRoutesPass(routes: seq<string>)
    requires forall k :: 0 <= k < |routes| ==> S.IsFolderRoute(routes[k])
    ensures V.CheckPages(StringArray(routes).items).None?
    ensures V.PageStrings(StringArray(routes).items) == routes
  {
    var items := StringArray(routes).items;
    forall k | 0 <= k < |items|
      ensures V.GoodPage(items[k])
    {
      FolderRouteIsGoodPage(routes[k]);
    }
  }

  /**
   * A manifest and a sitemap written by the structure sync pass the validator's
   * manifest, sitemap and route-file checks, provided the manifest has a `sections`
   * list, the walk found at least one page, it lists normal relative paths of files
   * that exist with `index.html` spelled in lower case, the cleaning keeps the
   * directory of every page (always so when corrected), and every resolved URL is
   * clean.
   */
  lemma SyncedSiteValidates(c: S.Cleaning, files: seq<string>, manifest: Json, less: (string, string) -> bool,
                            resolve: (string, string) -> string, parse: string -> V.UrlParts,
                            existing: set<string>)
    requires S.StrictTotalOrder(less)
    requires S.Sync(c, files, manifest, less, resolve).Synced?
    requires Get(manifest, "sections").Some? && Get(manifest, "sections").value.JArray?
    requires exists i :: 0 <= i < |files| && S.RouteOf(c, files[i]).Some?
    requires forall i :: 0 <= i < |files| ==> files[i] in existing && NormalPath(files[i])
    requires forall i :: 0 <= i < |files| && S.IsIndexFile(files[i]) ==> BaseName(files[i]) == S.IndexName
    requires forall i :: 0 <= i < |files| ==> S.DirKept(c, files[i])
    requires ResolvesClean(manifest.fields["baseUrl"].s, S.RoutesOf(c, files, less), resolve)
    ensures var o := S.Sync(c, files, manifest, less, resolve);
      V.ValidateManifestAndSitemap(Some(o.manifest), o.sitemap, existing, resolve, parse).None?
  {
    var o := S.Sync(c, files, manifest, less, resolve);
    var routes := S.RoutesOf(c, files, less);
    var baseUrl := manifest.fields["baseUrl"].s;
    assert routes != [] && forall k :: 0 <= k < |routes| ==> S.IsFolderRoute(routes[k]) by {
      S.IndexRoutesFacts(c, files, less);
      var i :| 0 <= i < |files| && S.RouteOf(c, files[i]).Some?;
      assert S.RouteOf(c, files[i]).value in routes;
    }
    assert V.All(V.LocTags, o.sitemap) == Urls(baseUrl, routes, resolve) by {
      SitemapRoundTrip(baseUrl, routes, resolve);
    }
    RouteFilesExist(c, files, less, existing);
    assert o.manifest.fields["baseUrl"] == manifest.fields["baseUrl"];
    assert o.manifest.fields["sections"] == manifest.fields["sections"];
    RoutesManifestValidates(o.manifest, o.sitemap, routes, baseUrl, existing, resolve, parse);
  }

  // ---------------------------------------------------------------------------
  // The hidden-directory route, as written and corrected
  // ---------------------------------------------------------------------------

  /**
   * As written, the sync publishes `/hidden/` for `.hidden/index.html`, and the validator
   * then looks for `hidden/index.html`, which the walk did not find: a site the sync
   * has just written fails validation.
   */
  lemma HiddenDirFailsValidationAsWritten()
    ensures var f, r := S.HiddenDir + "/" + S.IndexName, "/" + S.HiddenName + "/";
      S.RouteOf(S.AsWritten, f) == Some(r) && V.FirstMissingRouteFile([r], {f}, 0) == Some(0)
  {
    S.HiddenDirRouteAsWritten();
    HiddenRouteFileMissing();
  }

  // ---------------------------------------------------------------------------
  // An upper-case index file
  // ---------------------------------------------------------------------------

  /**
   * The sync takes `hidden/INDEX.HTML` as the page `/hidden/` under either cleaning, but the
   * validator then looks for `hidden/index.html`: where file names are case-sensitive, the
   * site the sync has just written fails validation.
   */
  lemma UpperCaseIndexFailsValidation(c: S.Cleaning)
    ensures var f, r := S.HiddenName + "/" + S.UpperIndexName, "/" + S.HiddenName + "/";
      S.RouteOf(c, f) == Some(r) && V.FirstMissingRouteFile([r], {f}, 0) == Some(0)
  {
    S.HiddenNameIsNormal();
    S.UpperIndexRoute(c, S.HiddenName);
    UpperRouteFileMissing();
  }

  /** The validator expects `hidden/index.html` behind the route `/hidden/`, not `hidden/INDEX.HTML`. */
  lemma UpperRouteFileMissing()
    ensures V.RouteFile("/" + S.HiddenName + "/") != S.HiddenName + "/" + S.UpperIndexName
  {
    V.RouteFileOfDir(S.HiddenName);
    assert (S.HiddenName + "/" + V.IndexFile)[7] == 'i';
    assert (S.HiddenName + "/" + S.UpperIndexName)[7] == 'I';
  }

  /** The validator expects `hidden/index.html` behind the route `/hidden/`, not `.hidden/index.html`. */
  lemma HiddenRouteFileMissing()
    ensures V.RouteFile("/" + S.HiddenName + "/") != S.HiddenDir + "/" + S.IndexName
  {
    V.RouteFileOfDir(S.HiddenName);
    assert (S.HiddenName + "/" + V.IndexFile)[0] == 'h';
    assert (S.HiddenDir + "/" + S.IndexName)[0] == '.';
  }

  /** With the dot kept, the route of `.hidden/index.html` is backed by that very file. */
  lemma HiddenDirPassesValidation()
    ensures var f, r := S.HiddenDir + "/" + S.IndexName, "/" + S.HiddenDir + "/";
      S.RouteOf(S.Intended, f) == Some(r) && V.FirstMissingRouteFile([r], {f}, 0).None?
  {
    S.HiddenDirRoute();
    var f := S.HiddenDir + "/" + S.IndexName;
    assert NormalPath(f) && BaseName(f) == S.IndexName by {
      S.IndexHtmlName();
      assert NormalPath(S.IndexName);
      NormalChild(S.HiddenDir, S.IndexName);
      DirNameOfChild(S.HiddenDir, S.IndexName);
    }
    RouteFileOfRoute(S.Intended, f);
  }
}
