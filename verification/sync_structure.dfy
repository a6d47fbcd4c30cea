/**
 * The structure sync: every `index.html` below the repository root becomes a folder
 * route; the routes are written into `site-manifest.json` as `pages` and into
 * `sitemap.xml`, one `<url>` entry each.
 *
 * The directory walk is given as the list of file paths it meets, relative to the
 * root and in walk order. The locale collation used to order the routes and the URL
 * resolution used to make them absolute are given as parameters.
 */
module SyncStructure {
  import opened Wrappers
  import opened Strings
  import opened Paths
  import opened Json

  // ---------------------------------------------------------------------------
  // Which files become routes
  // ---------------------------------------------------------------------------

  /** The file name that makes a directory a route. */
  const IndexName := "index.html"

  const IgnoreDirs: set<string> := {".git", ".github", "node_modules", "partials", "templates", "scripts"}

  /** `shouldIgnore`: some segment of the path is an ignored directory. */
  predicate ShouldIgnore(rel: string) {
    HasSegmentIn(rel, IgnoreDirs)
  }

  /** `entry.name.toLowerCase() === "index.html"`. */
  predicate IsIndexFile(rel: string) {
    Lower(BaseName(rel)) == IndexName
  }

  /** `replace(/^\.?\/?/, "")`: an optional `.` and then an optional `/` at the start go. */
  function StripDotSlashAsWritten(d: string): string {
    var a := if d != [] && d[0] == '.' then 1 else 0;
    var b := if a < |d| && d[a] == '/' then a + 1 else a;
    d[b..]
  }

  /** What the route derivation does with `dirname(relPosix)`, as written. */
  function CleanDirAsWritten(d: string): string {
    StripTrailingSlashes(StripDotSlashAsWritten(d))
  }

  /**
   * The evidently intended cleaning: only the directory `.` itself or a leading `./`
   * is dropped, never the dot of a directory name such as `.well-known`.
   */
  function CleanDir(d: string): string {
    StripTrailingSlashes(if d == "." then "" else if StartsWith(d, "./") then d[2..] else d)
  }

  /**
   * Which cleaning of `dirname(relPosix)` the walk applies: the script's own, or the
   * corrected one that keeps the dot of a hidden directory.
   */
  datatype Cleaning = AsWritten | Intended

  function Clean(c: Cleaning, d: string): string {
    match c
    case AsWritten => CleanDirAsWritten(d)
    case Intended => CleanDir(d)
  }

  /** `"/"` for the root, `/<cleaned>/` otherwise. */
  function FolderRoute(rel: string, cleaned: string): string {
    if rel == IndexName || cleaned == "" then "/" else "/" + cleaned + "/"
  }

  /** A route in the shape the manifest wants: `/`, or a non-empty name between slashes. */
  predicate IsFolderRoute(r: string) {
    r == "/" || (|r| >= 3 && r[0] == '/' && r[|r| - 1] == '/')
  }

  /**
   * The route a file contributes during the walk: none unless it is an `index.html`
   * (in any case) outside the ignored directories, and then a folder route.
   */
  function RouteOf(c: Cleaning, rel: string): (r: Option<string>)
    ensures r.Some? <==> IsIndexFile(rel) && !ShouldIgnore(rel)
    ensures r.Some? ==> IsFolderRoute(r.value)
  {
    if !IsIndexFile(rel) || ShouldIgnore(rel) then None
    else Some(FolderRoute(rel, Clean(c, DirName(rel))))
  }

  /**
   * The cleaning keeps the directory of `rel`: always when corrected; as written, unless
   * `rel` is a contributing `index.html` below a directory whose name starts with a dot.
   */
  predicate DirKept(c: Cleaning, rel: string) {
    c == Intended || !IsIndexFile(rel) || ShouldIgnore(rel) || '/' !in rel || rel[0] != '.'
  }

  /** No ignored directory has a ten-character name. */
  lemma IndexNameNotIgnoredDir()
    ensures IndexName !in IgnoreDirs
  {
    assert |IndexName| == 10;
    assert forall d :: d in IgnoreDirs ==> |d| != 10;
  }

  /** `index.html` is written in lower case. */
  lemma IndexNameIsLower()
    ensures Lower(IndexName) == IndexName
  {
    assert forall k :: 0 <= k < |IndexName| ==> !('A' <= IndexName[k] <= 'Z');
  }

  /** The name `index.html` has no slash, is its own lower case and is not ignored. */
  lemma IndexHtmlName()
    ensures '/' !in IndexName && Segments(IndexName) == [IndexName]
    ensures Lower(IndexName) == IndexName && !ShouldIgnore(IndexName)
  {
    assert '/' !in IndexName;
    SingleSegment(IndexName);
    IndexNameIsLower();
    IndexNameNotIgnoredDir();
  }

  /** The root `index.html` is the route `/`, under either cleaning. */
  lemma RootIndexRoute(c: Cleaning)
    ensures RouteOf(c, IndexName) == Some("/")
  {
    IndexHtmlName();
    DirNameOfName(IndexName);
  }

  /**
   * Cleaning leaves a directory path as `path.relative` produces it untouched: always
   * when corrected, and as written when it does not start with a dot.
   */
  lemma CleanNormalDir(c: Cleaning, d: string)
    requires NormalPath(d) && (c == Intended || d[0] != '.')
    ensures Clean(c, d) == d
  {
    NormalPathStarts(d);
    NormalPathEnds(d);
    if c == AsWritten {
      assert StripDotSlashAsWritten(d) == d[0..] == d;
    }
  }

  /** As written, the cleaning drops the dot of a directory that starts with one. */
  lemma CleanDotDirAsWritten(d: string)
    requires NormalPath(d) && d[0] == '.'
    ensures CleanDirAsWritten(d) == d[1..] && CleanDir(d) == d
  {
    NormalPathStarts(d);
    NormalPathEnds(d);
    assert d[..1] == ".";
    assert |d| != 1;
    assert d[..2] == [d[0], d[1]];
    assert StripDotSlashAsWritten(d) == d[1..];
    assert d[1..][|d[1..]| - 1] == d[|d| - 1];
  }

  /**
   * The `index.html` of a directory `d` outside the ignored directories is the route
   * `/d/`: under the corrected cleaning whatever `d` starts with, as written when `d`
   * does not start with a dot.
   */
  lemma DirIndexRoute(c: Cleaning, d: string)
    requires NormalPath(d) && !ShouldIgnore(d)
    requires c == Intended || d[0] != '.'
    ensures RouteOf(c, d + "/" + IndexName) == Some("/" + d + "/")
  {
    DirIndexFile(d);
    CleanNormalDir(c, d);
    NormalPathEnds(d);
  }

  /**
   * For a normal path, the two cleanings give the same route exactly when the cleaning as
   * written keeps the file's directory.
   */
  lemma RoutesAgree(rel: string)
    requires NormalPath(rel)
    ensures RouteOf(AsWritten, rel) == RouteOf(Intended, rel) <==> DirKept(AsWritten, rel)
  {
    if IsIndexFile(rel) && !ShouldIgnore(rel) && '/' in rel {
      var d := rel[..LastIndexOf(rel, '/')];
      ParentOfNormalPath(rel);
      NormalPathStarts(d);
      assert DirName(rel) == d && d[0] == rel[0];
      assert rel != IndexName;
      CleaningsAgree(d);
      WrapInjective(Clean(AsWritten, d), Clean(Intended, d));
    }
  }

  /** The two cleanings of a normal directory are non-empty, and equal unless it starts with a dot. */
  lemma CleaningsAgree(d: string)
    requires NormalPath(d)
    ensures Clean(AsWritten, d) != "" && Clean(Intended, d) != ""
    ensures Clean(AsWritten, d) == Clean(Intended, d) <==> d[0] != '.'
  {
    NormalPathStarts(d);
    if d[0] == '.' {
      CleanDotDirAsWritten(d);
      assert |d[1..]| < |d|;
    } else {
      CleanNormalDir(AsWritten, d);
      CleanNormalDir(Intended, d);
    }
  }

  /** Putting a name between slashes loses nothing. */
  lemma WrapInjective(x: string, y: string)
    ensures "/" + x + "/" == "/" + y + "/" <==> x == y
  {
    if "/" + x + "/" == "/" + y + "/" {
      assert |x| == |y|;
      assert x == ("/" + x + "/")[1..|x| + 1];
      assert y == ("/" + y + "/")[1..|y| + 1];
    }
  }

  /** `d/index.html` is an index file outside the ignored directories, in the directory `d`. */
  lemma DirIndexFile(d: string)
    requires NormalPath(d) && !ShouldIgnore(d)
    ensures var rel := d + "/" + IndexName;
      DirName(rel) == d && IsIndexFile(rel) && !ShouldIgnore(rel) && rel != IndexName
  {
    var rel := d + "/" + IndexName;
    assert DirName(rel) == d && IsIndexFile(rel) by {
      NormalPathEnds(d);
      IndexHtmlName();
      DirNameOfChild(d, IndexName);
    }
    assert !ShouldIgnore(rel) by {
      IndexHtmlName();
      SegmentInChild(d, IndexName, IgnoreDirs);
    }
    assert |rel| > |IndexName|;
  }

  /** The index name in upper case, which the walk accepts as well. */
  const UpperIndexName := "INDEX.HTML"

  /** `d/INDEX.HTML` contributes the same route as `d/index.html` would. */
  lemma UpperIndexRoute(c: Cleaning, d: string)
    requires NormalPath(d) && !ShouldIgnore(d)
    requires c == Intended || d[0] != '.'
    ensures RouteOf(c, d + "/" + UpperIndexName) == Some("/" + d + "/")
  {
    var rel := d + "/" + UpperIndexName;
    NormalPathStarts(d);
    NormalPathEnds(d);
    UpperIndexHtmlName();
    DirNameOfChild(d, UpperIndexName);
    assert !ShouldIgnore(rel) by {
      SegmentInChild(d, UpperIndexName, IgnoreDirs);
    }
    assert rel != IndexName by {
      assert |rel| > |IndexName|;
    }
    CleanNormalDir(c, d);
  }

  /** `INDEX.HTML` is one segment, lower-cases to `index.html` and is not ignored. */
  lemma UpperIndexHtmlName()
    ensures '/' !in UpperIndexName && Lower(UpperIndexName) == IndexName && !ShouldIgnore(UpperIndexName)
  {
    var l := Lower(UpperIndexName);
    assert l[0] == 'i' && l[1] == 'n' && l[2] == 'd' && l[3] == 'e' && l[4] == 'x';
    assert l[5] == '.' && l[6] == 'h' && l[7] == 't' && l[8] == 'm' && l[9] == 'l';
    assert '/' !in UpperIndexName;
    SingleSegment(UpperIndexName);
    assert |UpperIndexName| == 10;
    assert forall x :: x in IgnoreDirs ==> |x| != 10;
  }

  /** An example hidden directory, such as `.well-known`: a dot, then a plain name. */
  const HiddenName := "hidden"
  const HiddenDir := "." + HiddenName

  /** The plain name is a one-segment path outside the ignored directories. */
  lemma HiddenNameIsNormal()
    ensures NormalPath(HiddenName) && !ShouldIgnore(HiddenName)
  {
    assert |HiddenName| == 6 && HiddenName[0] == 'h';
    assert '/' !in HiddenName;
    SingleSegment(HiddenName);
    assert HiddenName !in IgnoreDirs;
  }

  /** The hidden directory is a one-segment path outside the ignored directories. */
  lemma HiddenDirIsNormal()
    ensures NormalPath(HiddenDir) && !ShouldIgnore(HiddenDir)
  {
    assert |HiddenDir| == 7 && HiddenDir[0] == '.' && HiddenDir[1] == 'h';
    assert '/' !in HiddenDir;
    SingleSegment(HiddenDir);
    assert HiddenDir !in IgnoreDirs;
  }

  /** A hidden directory keeps its dot: `.hidden/index.html` is the route `/.hidden/`. */
  lemma HiddenDirRoute()
    ensures NormalPath(HiddenDir) && !ShouldIgnore(HiddenDir)
    ensures RouteOf(Intended, HiddenDir + "/" + IndexName) == Some("/" + HiddenDir + "/")
  {
    HiddenDirIsNormal();
    DirIndexRoute(Intended, HiddenDir);
  }

  /** As written, `.hidden/index.html` becomes the route `/hidden/`, which names another directory. */
  lemma HiddenDirRouteAsWritten()
    ensures NormalPath(HiddenDir) && !ShouldIgnore(HiddenDir)
    ensures RouteOf(AsWritten, HiddenDir + "/" + IndexName) == Some("/" + HiddenName + "/")
  {
    HiddenDirIsNormal();
    DirIndexFile(HiddenDir);
    CleanDotDirAsWritten(HiddenDir);
    assert HiddenDir[1..] == HiddenName;
  }

  // ---------------------------------------------------------------------------
  // Collecting and ordering the routes
  // ---------------------------------------------------------------------------

  predicate Distinct(xs: seq<string>) {
    forall i, j :: 0 <= i < j < |xs| ==> xs[i] != xs[j]
  }

  /** The `routes` set after the walk has met `files`, in insertion order. */
  function Discovered(c: Cleaning, files: seq<string>): (routes: seq<string>)
    ensures Distinct(routes)
    ensures forall r :: r in routes <==> Contributes(c, files, r)
    decreases |files|
  {
    if files == [] then []
    else
      var prev := Discovered(c, files[..|files| - 1]);
      assert files == files[..|files| - 1] + [files[|files| - 1]];
      YieldsSnoc(c, files[..|files| - 1], files[|files| - 1]);
      match RouteOf(c, files[|files| - 1])
      case None => prev
      case Some(r) => if r in prev then prev else prev + [r]
  }

  /** What each file of the walk contributes, in walk order. */
  function Yields(c: Cleaning, files: seq<string>): (ys: seq<Option<string>>)
    ensures |ys| == |files| && forall i :: 0 <= i < |files| ==> ys[i] == RouteOf(c, files[i])
  {
    Map(rel => RouteOf(c, rel), files)
  }

  lemma YieldsSnoc(c: Cleaning, files: seq<string>, f: string)
    ensures Yields(c, files + [f]) == Yields(c, files) + [RouteOf(c, f)]
  {
    MapSnoc(rel => RouteOf(c, rel), files, f);
  }

  /** Some file of the walk yields the route `r`. */
  predicate Contributes(c: Cleaning, files: seq<string>, r: string) {
    Some(r) in Yields(c, files)
  }

  /** `less(a, b)` is `a.localeCompare(b) < 0`; a collation is a strict total order. */
  ghost predicate StrictTotalOrder(less: (string, string) -> bool) {
    (forall a, b :: less(a, b) ==> !less(b, a)) &&
    (forall a, b, c :: less(a, b) && less(b, c) ==> less(a, c)) &&
    (forall a, b :: a != b ==> less(a, b) || less(b, a))
  }

  /** The sort comparator: `/` before everything, the rest by collation. */
  predicate Before(a: string, b: string, less: (string, string) -> bool) {
    if a == "/" then b != "/" else if b == "/" then false else less(a, b)
  }

  predicate SortedBy(xs: seq<string>, less: (string, string) -> bool) {
    forall i, j :: 0 <= i < j < |xs| ==> Before(xs[i], xs[j], less)
  }

  /** Insertion of one route into a sorted list. */
  function Insert(x: string, xs: seq<string>, less: (string, string) -> bool): (r: seq<string>)
    ensures |r| == |xs| + 1
    ensures forall y :: y in r <==> y == x || y in xs
  {
    if xs == [] then [x]
    else if Before(x, xs[0], less) then [x] + xs
    else [xs[0]] + Insert(x, xs[1..], less)
  }

  /** `Array.from(routes).sort(comparator)`, as a sort by insertion. */
  function SortRoutes(xs: seq<string>, less: (string, string) -> bool): (r: seq<string>)
    ensures |r| == |xs|
    ensures forall y :: y in r <==> y in xs
  {
    if xs == [] then [] else Insert(xs[0], SortRoutes(xs[1..], less), less)
  }

  lemma {:induction false} InsertSorted(x: string, xs: seq<string>, less: (string, string) -> bool)
    requires StrictTotalOrder(less)
    requires SortedBy(xs, less) && x !in xs
    ensures SortedBy(Insert(x, xs, less), less)
    decreases |xs|
  {
    if xs != [] && !Before(x, xs[0], less) {
      var rest := xs[1..];
      InsertSorted(x, rest, less);
      var r := Insert(x, xs, less);
      assert r == [xs[0]] + Insert(x, rest, less);
      assert Before(xs[0], x, less);
      forall j | 1 <= j < |r|
        ensures Before(r[0], r[j], less)
      {
        assert r[j] in Insert(x, rest, less);
      }
    } else if xs != [] {
      var r := [x] + xs;
      forall j | 1 <= j < |r|
        ensures Before(x, r[j], less)
      {
        assert Before(xs[0], xs[j - 1], less) || j == 1;
      }
    }
  }

  /** Sorting a duplicate-free list gives the same routes, sorted, `/` first. */
  lemma {:induction false} SortRoutesSorted(xs: seq<string>, less: (string, string) -> bool)
    requires StrictTotalOrder(less) && Distinct(xs)
    ensures SortedBy(SortRoutes(xs, less), less)
    ensures Distinct(SortRoutes(xs, less))
    decreases |xs|
  {
    if xs != [] {
      assert Distinct(xs[1..]);
      SortRoutesSorted(xs[1..], less);
      assert xs[0] !in xs[1..];
      InsertSorted(xs[0], SortRoutes(xs[1..], less), less);
    }
    var r := SortRoutes(xs, less);
    forall i, j | 0 <= i < j < |r|
      ensures r[i] != r[j]
    {
      assert Before(r[i], r[j], less);
    }
  }

  /** Meeting file `i` adds its route unless the walk has it already. */
  lemma DiscoveredStep(c: Cleaning, files: seq<string>, i: nat)
    requires i < |files|
    ensures var prev, route := Discovered(c, files[..i]), RouteOf(c, files[i]);
      Discovered(c, files[..i + 1]) ==
        if route.Some? && route.value !in prev then prev + [route.value] else prev
  {
    assert files[..i + 1][..i] == files[..i];
  }

  /** `walkForIndexRoutes`: the walk adds each file's route to a set, then the set is sorted. */
  method IndexRoutes(c: Cleaning, files: seq<string>, less: (string, string) -> bool) returns (routes: seq<string>)
    ensures routes == SortRoutes(Discovered(c, files), less)
  {
    var found: seq<string> := [];
    for i := 0 to |files|
      invariant found == Discovered(c, files[..i])
    {
      DiscoveredStep(c, files, i);
      var route := RouteOf(c, files[i]);
      if route.Some? && route.value !in found {
        found := found + [route.value];
      }
    }
    assert files[..|files|] == files;
    routes := SortRoutes(found, less);
  }

  /**
   * The routes of a walk: each once, exactly the routes of the `index.html` files
   * outside the ignored directories, every one a folder route, in comparator order
   * and so with `/` first.
   */
  lemma IndexRoutesFacts(c: Cleaning, files: seq<string>, less: (string, string) -> bool)
    requires StrictTotalOrder(less)
    ensures var routes := SortRoutes(Discovered(c, files), less);
      Distinct(routes) && SortedBy(routes, less) &&
      (forall r :: r in routes <==> Contributes(c, files, r)) &&
      (forall k :: 0 <= k < |routes| ==> IsFolderRoute(routes[k])) &&
      ("/" in routes ==> routes[0] == "/")
  {
    var routes := SortRoutes(Discovered(c, files), less);
    SortRoutesSorted(Discovered(c, files), less);
    forall k | 0 <= k < |routes|
      ensures IsFolderRoute(routes[k])
    {
      assert routes[k] in Discovered(c, files);
      var i :| 0 <= i < |files| && Yields(c, files)[i] == Some(routes[k]);
    }
    if "/" in routes {
      var k :| 0 <= k < |routes| && routes[k] == "/";
    }
  }

  // ---------------------------------------------------------------------------
  // Priorities
  // ---------------------------------------------------------------------------

  /** How many of `parts` are non-empty: `parts.filter(Boolean).length`. */
  function NonEmptyCount(parts: seq<string>): nat {
    if parts == [] then 0 else (if parts[0] != "" then 1 else 0) + NonEmptyCount(parts[1..])
  }

  /** `route.split("/").filter(Boolean).length`. */
  function Depth(route: string): nat {
    NonEmptyCount(Segments(route))
  }

  /** `priorityForRoute`. */
  function PriorityForRoute(route: string): string {
    if route == "/" then "1.0" else if Depth(route) <= 1 then "0.8" else "0.7"
  }

  lemma {:induction false} NonEmptyCountAppend(a: seq<string>, b: seq<string>)
    ensures NonEmptyCount(a + b) == NonEmptyCount(a) + NonEmptyCount(b)
    decreases |a|
  {
    if a != [] {
      assert (a + b)[1..] == a[1..] + b;
      NonEmptyCountAppend(a[1..], b);
    } else {
      assert a + b == b;
    }
  }

  /** The depth of a route is the number of segments of the directory it names. */
  lemma {:induction false} DepthOfDirRoute(d: string)
    requires NormalPath(d)
    ensures Depth("/" + d + "/") == |Segments(d)|
  {
    var parts := Segments(d);
    Assoc("/", d, "/");
    SplitAfterSep(d + "/", '/');
    SplitBeforeSep(d, '/');
    NonEmptyCountAppend([""], parts + [""]);
    NonEmptyCountAppend(parts, [""]);
    AllNonEmptyCount(parts);
  }

  lemma {:induction false} AllNonEmptyCount(parts: seq<string>)
    requires forall k :: 0 <= k < |parts| ==> parts[k] != ""
    ensures NonEmptyCount(parts) == |parts|
    decreases |parts|
  {
    if parts != [] {
      AllNonEmptyCount(parts[1..]);
    }
  }

  /** `/` has priority 1.0, a top-level folder 0.8, anything deeper 0.7. */
  lemma RoutePriority(d: string)
    requires NormalPath(d)
    ensures PriorityForRoute("/") == "1.0"
    ensures PriorityForRoute("/" + d + "/") == (if |Segments(d)| == 1 then "0.8" else "0.7")
  {
    DepthOfDirRoute(d);
    assert |Segments(d)| >= 1;
    assert "/" + d + "/" != "/" by {
      NormalPathEnds(d);
    }
  }

  // ---------------------------------------------------------------------------
  // The sitemap
  // ---------------------------------------------------------------------------

  /** `<?xml version="1.0" encoding="UTF-8"?>` */
  const XmlDeclaration := Tag("?xml version=\"1.0\"" + " encoding=\"UTF-8\"?")
  const SitemapNamespace := "http://www.sitemaps.org/schemas/sitemap/0.9"
  const UrlsetOpen := Tag("urlset xmlns=\"" + SitemapNamespace + "\"")
  const UrlsetClose := Tag("/urlset")

  const UrlOpen := "  " + Tag("url")
  const UrlClose := "  " + Tag("/url")

  /** A tag: `<name>`, or `</name>` when the name starts with `/`. */
  function Tag(name: string): string {
    "<" + name + ">"
  }

  /** An element with text content: `<tag>text</tag>`. */
  function Element(tag: string, text: string): string {
    Tag(tag) + text + Tag("/" + tag)
  }

  /** The five lines of one `<url>` entry; the inner elements are indented by four spaces. */
  function UrlEntry(absolute: string, priority: string): seq<string> {
    [UrlOpen, "    " + Element("loc", absolute), "    " + Element("changefreq", "weekly"),
     "    " + Element("priority", priority), UrlClose]
  }

  /** The entries of the first routes; `resolve(route, baseUrl)` is `new URL(route, baseUrl).toString()`. */
  function UrlEntries(baseUrl: string, routes: seq<string>, resolve: (string, string) -> string): (r: seq<string>)
    ensures |r| == 5 * |routes|
    decreases |routes|
  {
    if routes == [] then []
    else
      var last := routes[|routes| - 1];
      UrlEntries(baseUrl, routes[..|routes| - 1], resolve) + UrlEntry(resolve(last, baseUrl), PriorityForRoute(last))
  }

  /** Entry `i` of the list sits at lines `5 * i` to `5 * i + 5`. */
  lemma {:induction false} UrlEntriesAt(baseUrl: string, routes: seq<string>, resolve: (string, string) -> string, i: nat)
    requires i < |routes|
    ensures UrlEntries(baseUrl, routes, resolve)[5 * i..5 * i + 5] ==
      UrlEntry(resolve(routes[i], baseUrl), PriorityForRoute(routes[i]))
    decreases |routes|
  {
    var n := |routes| - 1;
    var prev := UrlEntries(baseUrl, routes[..n], resolve);
    var entry := UrlEntry(resolve(routes[n], baseUrl), PriorityForRoute(routes[n]));
    assert UrlEntries(baseUrl, routes, resolve) == prev + entry;
    if i < n {
      UrlEntriesAt(baseUrl, routes[..n], resolve, i);
      assert routes[..n][i] == routes[i];
      BlockOfPrefix(prev, entry, i);
    } else {
      BlockOfPrefix(prev, entry, i);
    }
  }

  /** Block `i` of five elements in `prev + last`, where `prev` holds whole blocks and `last` one. */
  lemma BlockOfPrefix<T>(prev: seq<T>, last: seq<T>, i: nat)
    requires |prev| % 5 == 0 && |last| == 5 && 5 * i < |prev| + 5
    ensures 5 * i < |prev| ==> (prev + last)[5 * i..5 * i + 5] == prev[5 * i..5 * i + 5]
    ensures 5 * i == |prev| ==> (prev + last)[5 * i..5 * i + 5] == last
  {
  }

  lemma FivePushes<T>(s: seq<T>, a: T, b: T, c: T, d: T, e: T)
    ensures s + [a] + [b] + [c] + [d] + [e] == s + [a, b, c, d, e]
  {
  }

  /** `writeSitemap`'s line list: two header lines, an entry per route, the closing tag. */
  method SitemapLines(baseUrl: string, routes: seq<string>, resolve: (string, string) -> string)
    returns (lines: seq<string>)
    ensures lines == [XmlDeclaration, UrlsetOpen] + UrlEntries(baseUrl, routes, resolve) + [UrlsetClose]
  {
    lines := [XmlDeclaration, UrlsetOpen];
    for i := 0 to |routes|
      invariant lines == [XmlDeclaration, UrlsetOpen] + UrlEntries(baseUrl, routes[..i], resolve)
    {
      var route := routes[i];
      var absolute := resolve(route, baseUrl);
      ghost var before := lines;
      lines := lines + [UrlOpen];
      lines := lines + ["    " + Element("loc", absolute)];
      lines := lines + ["    " + Element("changefreq", "weekly")];
      lines := lines + ["    " + Element("priority", PriorityForRoute(route))];
      lines := lines + [UrlClose];
      FivePushes(before, UrlOpen, "    " + Element("loc", absolute), "    " + Element("changefreq", "weekly"),
                 "    " + Element("priority", PriorityForRoute(route)), UrlClose);
      assert routes[..i + 1][..i] == routes[..i];
      Assoc([XmlDeclaration, UrlsetOpen], UrlEntries(baseUrl, routes[..i], resolve),
            UrlEntry(absolute, PriorityForRoute(route)));
    }
    assert routes[..|routes|] == routes;
    lines := lines + [UrlsetClose];
  }

  /** The sitemap lines as one list. */
  function SitemapOf(baseUrl: string, routes: seq<string>, resolve: (string, string) -> string): seq<string> {
    [XmlDeclaration, UrlsetOpen] + UrlEntries(baseUrl, routes, resolve) + [UrlsetClose]
  }

  /**
   * The sitemap has two header lines, exactly five lines per route in route order,
   * each with the route's absolute URL as its `<loc>` and the route's priority, and
   * the closing tag as its last line.
   */
  lemma SitemapLayout(baseUrl: string, routes: seq<string>, resolve: (string, string) -> string)
    ensures var lines := SitemapOf(baseUrl, routes, resolve);
      |lines| == 5 * |routes| + 3 &&
      lines[0] == XmlDeclaration && lines[1] == UrlsetOpen && lines[|lines| - 1] == UrlsetClose &&
      forall i :: 0 <= i < |routes| ==>
        lines[2 + 5 * i..7 + 5 * i] == UrlEntry(resolve(routes[i], baseUrl), PriorityForRoute(routes[i]))
  {
    var lines := SitemapOf(baseUrl, routes, resolve);
    var entries := UrlEntries(baseUrl, routes, resolve);
    forall i | 0 <= i < |routes|
      ensures lines[2 + 5 * i..7 + 5 * i] == UrlEntry(resolve(routes[i], baseUrl), PriorityForRoute(routes[i]))
    {
      UrlEntriesAt(baseUrl, routes, resolve, i);
      SliceOfMiddle([XmlDeclaration, UrlsetOpen], entries, [UrlsetClose], 5 * i, 5 * i + 5);
    }
  }

  /** The text written to `sitemap.xml`: the lines joined with newlines, plus a final newline. */
  function SitemapText(lines: seq<string>): string {
    Join(lines, '\n') + "\n"
  }

  // ---------------------------------------------------------------------------
  // main
  // ---------------------------------------------------------------------------

  datatype SyncError = ManifestNotObject | MissingBaseUrl

  /** What a run writes: the manifest with its new `pages`, and the sitemap text. */
  datatype SyncOutcome =
    | SyncFailed(error: SyncError)
    | Synced(manifest: Json, sitemap: string)

  /** The routes a run derives from the walk. */
  function RoutesOf(c: Cleaning, files: seq<string>, less: (string, string) -> bool): seq<string> {
    SortRoutes(Discovered(c, files), less)
  }

  /**
   * `main`: the manifest must be an object with a non-empty string `baseUrl`; then its
   * `pages` become the routes, all other fields are kept, and the sitemap is rebuilt
   * from the same routes.
   */
  function Sync(c: Cleaning, files: seq<string>, manifest: Json, less: (string, string) -> bool,
                resolve: (string, string) -> string): (o: SyncOutcome)
    ensures !IsObject(manifest) ==> o == SyncFailed(ManifestNotObject)
    ensures IsObject(manifest) && !HasStringField(manifest, "baseUrl") ==> o == SyncFailed(MissingBaseUrl)
    ensures o.Synced? <==> IsObject(manifest) && HasStringField(manifest, "baseUrl")
    ensures o.Synced? ==>
      o.manifest.JObject? &&
      o.manifest.fields.Keys == manifest.fields.Keys + {"pages"} &&
      o.manifest.fields["pages"] == StringArray(RoutesOf(c, files, less)) &&
      (forall key :: key in manifest.fields && key != "pages" ==> o.manifest.fields[key] == manifest.fields[key]) &&
      o.sitemap == SitemapText(SitemapOf(manifest.fields["baseUrl"].s, RoutesOf(c, files, less), resolve))
  {
    if !IsObject(manifest) then SyncFailed(ManifestNotObject)
    else if !HasStringField(manifest, "baseUrl") then SyncFailed(MissingBaseUrl)
    else
      var routes := RoutesOf(c, files, less);
      var baseUrl := manifest.fields["baseUrl"].s;
      Synced(JObject(manifest.fields["pages" := StringArray(routes)]),
             SitemapText(SitemapOf(baseUrl, routes, resolve)))
  }
}
