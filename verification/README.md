# Ledger dispatch and site structure scripts, modelled in Dafny

Four Node scripts sit behind this repository's automation.

- `dispatch-next-task.mjs` reads the hand-edited task ledger `TASKS.md`. It parses the
  `Task N — title` / `Status: TODO|COMPLETE` headers into task records and picks the
  first TODO task. It then looks through the open `codex-run` issues and open pull
  requests for a mention of the task's id. It opens a new issue only when none is found.
- `mark-task-complete.mjs` runs after a task's work has landed. It ticks the task's
  checklist item `- [ ] id:<id> ...` to `- [x]` and commits the ledger, but only when
  the text actually changed.
- `sync-structure.mjs` walks the site for `index.html` files. It turns them into folder
  routes (`/`, `/about/`, ...), sorts them with `/` first, stores them as the manifest's
  `pages`, and rewrites `sitemap.xml` with one `<url>` block per route.
- `validate-site.mjs` checks the result. The required files must exist, and the manifest
  must be well formed. The sitemap must list every manifest page, and every route must
  have its `index.html`. Every published page must use the shared includes, keep its
  links root-relative, and carry a title, a meta description and a canonical link.

The Dafny project models each script's logic. The file system, the GitHub API, git, the
process environment and the console are replaced by plain inputs and outputs:

- a ledger is `Option<string>`, with `None` for a missing file;
- the tracker's lists are sequences of `Item(number, title, body)`;
- a directory walk is the sequence of relative POSIX paths it meets;
- `existsSync` is a `set<string>` `existing`: the relative path strings it accepts. Because
  `path.join` normalises its argument, that set also holds other spellings of a present
  path (`a//b/index.html`), and it holds directories as well as files;
- reading a page is a function `read`;
- the WHATWG `URL` constructor becomes two functions. `resolve` stands for
  `new URL(route, base).toString()` and `parse` returns the parsed host name and path.

Modules:

- `Wrappers`, `Strings`, `Paths`, `Json` and `Patterns` hold the shared vocabulary.
  This covers `split`/`join`, `trim`, `toLowerCase`, `parseInt` and decimal printing,
  POSIX `dirname`/`basename`, `JSON.parse` values, and the regular expressions the
  validator applies to a page.
- `Dispatch`, `MarkComplete`, `SyncStructure` and `ValidateSite` follow the four scripts.
- `SiteConsistency` proves that the two site scripts agree. A sitemap written by
  `sync-structure.mjs` yields back, under the validator's `<loc>` extraction, exactly the
  URLs of its routes. A synced manifest and sitemap pass the validator's manifest,
  sitemap and route-file checks under these premises:
  - the manifest has a `sections` array;
  - the walk found at least one page;
  - the walk lists normal relative paths of files that exist;
  - every index file is spelled `index.html` in lower case;
  - every resolved URL is clean;
  - `localeCompare` is a strict total order;
  - for the script's own cleaning, no page lies below a directory whose name starts
    with a dot.

The directory cleaning at `sync-structure.mjs:52` drops a leading `.` even when it
begins a directory name. The route derivation therefore takes a `Cleaning` parameter:

- `AsWritten` is the script's `replace(/^\.?\/?/, "")`;
- `Intended` drops only `.` itself or a leading `./`, so a hidden directory keeps its dot.

Every route lemma is stated for both cleanings. Under `AsWritten` it carries the premise
`DirKept`: the file is not a contributing `index.html` below a dot-directory. Under
`Intended` it holds on every walk. `SyncStructure.RoutesAgree` shows that `DirKept` is
exactly where the two cleanings give the same route.

Where a script loops and updates variables, the model keeps the loop and proves it equal
to a specification function:

- `Dispatch.ParseTasks` is the header scan;
- `MarkComplete.MarkDone` is the line loop;
- `SyncStructure.IndexRoutes` is the route collection;
- `SyncStructure.SitemapLines` is the line pushes;
- `ValidateSite.ExtractSitemapLocs` is the `exec` loop.

The properties are then proved about those functions.

## Model

| member | source | states |
|---|---|---|
| Dispatch.HeaderLead | scripts/dispatch-next-task.mjs:52 | a line that starts like a header starts with `T` and captures a non-empty run of ASCII digits |
| Dispatch.MatchStatus | scripts/dispatch-next-task.mjs:67 | a status line yields TODO or COMPLETE (never the empty status) and starts with `s`/`S`, whatever the case of the rest |
| Dispatch.StatusIsNotHeader | scripts/dispatch-next-task.mjs:67-74 | a `Status:` line is never a task header, neither the full header pattern nor the bail-out pattern |
| Dispatch.HeaderIsHeaderStart | scripts/dispatch-next-task.mjs:52-83 | every full header line also matches the shorter pattern that ends the lookahead and the body |
| Dispatch.Classify | scripts/dispatch-next-task.mjs:52-83 | a line's kind is header exactly when the header regex matches (with its number and title); a boundary exactly when the bail-out regex matches; a status line exactly when the status regex matches |
| Dispatch.WindowStop | scripts/dispatch-next-task.mjs:66 | the lookahead stops at `min(i + 10, lines.length)` |
| Dispatch.ScanStatus | scripts/dispatch-next-task.mjs:66-75 | the found status line lies in the window with only plain lines before it; if none is found, every status line in the window comes after a header that ended the search |
| Dispatch.StatusIndex | scripts/dispatch-next-task.mjs:64-75 | a found status line is one of the 9 lines after the header |
| Dispatch.BodyEnd | scripts/dispatch-next-task.mjs:80-86 | the body runs up to, and not including, the next header-like line, or to the end of the text |
| Dispatch.NextIndex | scripts/dispatch-next-task.mjs:98 | the scan always moves forward (`i < k`), so it terminates |
| Dispatch.NoHeaderInsideTask | scripts/dispatch-next-task.mjs:79-98 | no header line lies strictly between a task's header and the next scan position |
| Dispatch.ScanVisitsEveryHeader | scripts/dispatch-next-task.mjs:48-99 | the scan visits exactly the header lines, in increasing order, none skipped |
| Dispatch.ParseIsPerHeader | scripts/dispatch-next-task.mjs:44-102 | the parsed tasks are one per header line, in source order |
| Dispatch.ParsedTaskFields | scripts/dispatch-next-task.mjs:52-96 | each record's number, id (`task-N`), title line (`Task N — trimmed title`), status (empty when no status line) and body (lines from the body start to the next header, joined and right-trimmed) |
| Dispatch.IdDropsLeadingZeros | scripts/dispatch-next-task.mjs:58-61 | leading zeros in the header number do not change the id, and without them the id spells the digits exactly |
| Dispatch.FindStatus | scripts/dispatch-next-task.mjs:64-75 | the lookahead loop finds exactly the status line of the specification, or reports -1 and the empty status |
| Dispatch.CollectBody | scripts/dispatch-next-task.mjs:79-86 | the body loop collects exactly the lines up to the body's end |
| Dispatch.ReadTask | scripts/dispatch-next-task.mjs:58-98 | one iteration builds the task record of the specification and returns the next scan position |
| Dispatch.ScanAdvance | scripts/dispatch-next-task.mjs:90-98 | pushing a task and jumping to the next index keeps the parsed prefix plus the rest of the scan equal to the whole |
| Dispatch.ParseTasks | scripts/dispatch-next-task.mjs:44-102 | the imperative parser returns exactly the specified tasks, one per header line |
| Dispatch.SelectNext | scripts/dispatch-next-task.mjs:190 | the chosen task is the first one whose status is exactly TODO; none is chosen iff no task is TODO |
| Dispatch.HasTaskIdIff | scripts/dispatch-next-task.mjs:135-145 | the three `task id:` variants are subsumed: a mention is found iff the lowered text contains the lowered id or the lowered `Task N —` form |
| Dispatch.ContainedIdIsDetected | scripts/dispatch-next-task.mjs:143 | any text that contains the id counts as a mention |
| Dispatch.HasTaskIdOverMatches | scripts/dispatch-next-task.mjs:143 | the check over-matches: `task-1` is found in `Fix task-10` |
| Dispatch.FindMention | scripts/dispatch-next-task.mjs:149 | `find` returns the first item whose title and body mention the id; none when no item does |
| Dispatch.AlreadyInFlight | scripts/dispatch-next-task.mjs:147-157 | no conflict iff no open issue and no open PR mentions the id; issues take precedence, and a PR is reported only when no issue matches; the reported item is the first match |
| Dispatch.Instructions | scripts/dispatch-next-task.mjs:169 | a blank body gives the placeholder, otherwise the trimmed body |
| Dispatch.IssueBody | scripts/dispatch-next-task.mjs:163-175 | the issue body starts with `Task ID: <id>`, has the title line and the instructions at their places, and ends with the keep-the-line note |
| Dispatch.DispatchNext | scripts/dispatch-next-task.mjs:186-205 | an empty `REPO` (read when the script loads, line 13) is an error before the ledger is read; a missing ledger is an error; nothing is dispatched iff no task is TODO; an invalid-`REPO` outcome means `REPO` does not split; otherwise the first TODO task is reported in flight when the tracker mentions it, and an issue with its title, body and `codex-run` label is created only when nothing does |
| Dispatch.DispatchTask | scripts/dispatch-next-task.mjs:193-205 | for the selected task, `REPO` is reported invalid iff it does not split into owner and name (the split happens when the tracker is first listed, lines 124 and 15-19); otherwise the task is in flight as the first mentioning item, or its issue is created with its title, body and label |
| Dispatch.IssueMentionsTask | scripts/dispatch-next-task.mjs:163-164 | the created issue mentions its own task id |
| Dispatch.FindMentionAppended | scripts/dispatch-next-task.mjs:149 | an item appended after items that do not mention the id is the first match |
| Dispatch.InFlightAfterAppend | scripts/dispatch-next-task.mjs:147-150 | once an issue mentioning the id is open, the task is in flight as that issue |
| Dispatch.DispatchIsIdempotent | scripts/dispatch-next-task.mjs:186-203 | after a run creates an issue, the next run over the same ledger reports the task as in flight as that issue instead of creating another |
| Dispatch.OwnerRepo | scripts/dispatch-next-task.mjs:15-19 | the `owner/name` split fails iff a part is missing or empty; on success both parts are non-empty, slash-free and spell the start of the value |
| Dispatch.OwnerRepoRoundTrip | scripts/dispatch-next-task.mjs:15-19 | splitting `owner + "/" + name` gives back owner and name |
| Strings.Split | scripts/mark-task-complete.mjs:22 | the pieces contain no separator and join back to the text |
| Strings.SplitJoin | scripts/mark-task-complete.mjs:43 | splitting joined separator-free pieces gives the pieces back |
| Strings.ValueOfShow | scripts/dispatch-next-task.mjs:60-61 | `parseInt` of the printed number is the number |
| Strings.ShowOfValue | scripts/dispatch-next-task.mjs:58-61 | printing the parsed value of a digit string without leading zeros gives the same string |
| Strings.TrimCuts | scripts/dispatch-next-task.mjs:59 | `trim()` leaves no whitespace at either end and only cuts whitespace |
| Strings.TrimPadding | scripts/dispatch-next-task.mjs:52-59 | trimming the regex capture gives the same title however the whitespace is shared between `\s+`, `(.+)` and `\s*` |
| MarkComplete.EntryIdIsTrimmed | scripts/mark-task-complete.mjs:31-34 | the captured id is non-empty and trimming it changes nothing |
| MarkComplete.BareIdNeverMatches | scripts/mark-task-complete.mjs:31-32 | an item with nothing after its id is not a candidate line |
| MarkComplete.EntryMark | scripts/mark-task-complete.mjs:31 | a matched mark is a space, `x` or `X` |
| MarkComplete.TickBoxKeepsEntry | scripts/mark-task-complete.mjs:41 | ticking an open item only turns its prefix into `- [x]` and keeps it the item of the same id |
| MarkComplete.FindEntry | scripts/mark-task-complete.mjs:25-36 | finds the first line holding an item whose id equals the target exactly, or reports that none does |
| MarkComplete.MarkDoneOf | scripts/mark-task-complete.mjs:21-47 | `changed` iff the reason is `marked_done`; an unchanged result returns the text untouched; `not_found` iff no line is the task's item (the ticked and open cases are the two lemmas `TickedEntryIsAlreadyDone` and `OpenEntryIsMarkedDone`) |
| MarkComplete.MarkDone | scripts/mark-task-complete.mjs:21-47 | the early-returning loop computes exactly `MarkDoneOf` |
| MarkComplete.ChangedAtFirstEntry | scripts/mark-task-complete.mjs:34-43 | a change happens at the first item of the task, which was open, and is that line ticked |
| MarkComplete.SplitTicked | scripts/mark-task-complete.mjs:41-43 | re-splitting the joined result gives the ticked lines back (the line count is kept) |
| MarkComplete.TickLineTicks | scripts/mark-task-complete.mjs:41 | ticking line `j` changes only its first five characters to `- [x]`; every other line is identical |
| MarkComplete.MarkDoneIsSurgical | scripts/mark-task-complete.mjs:41-43 | a `marked_done` result differs from the input in exactly one line, the task's open item, whose box is ticked |
| MarkComplete.MarkDoneIsIdempotent | scripts/mark-task-complete.mjs:31-41 | marking the output again gives `already_done` with the text unchanged |
| MarkComplete.TickedEntryIsAlreadyDone | scripts/mark-task-complete.mjs:37-39 | when the task's first item is ticked (`x` or `X`), the result is `already_done` with the text unchanged |
| MarkComplete.OpenEntryIsMarkedDone | scripts/mark-task-complete.mjs:34-43 | when the task's first item is open, the result is `marked_done`, `changed`, and the text is the lines with that item's box ticked, joined back |
| MarkComplete.CompleteTask | scripts/mark-task-complete.mjs:11-75 | an empty `TASK_ID` is an error as the script loads; a missing ledger is an error; the ledger is written and committed, under `chore(tasks): mark <id> complete`, iff `markDone` changed it |
| MarkComplete.OpenEntryIsCommitted | scripts/mark-task-complete.mjs:61-75 | a ledger whose first item for the task is open is committed, with that box ticked and the fixed message |
| MarkComplete.CompleteTaskSettles | scripts/mark-task-complete.mjs:65-74 | a run over a committed ledger finds nothing more to do |
| Paths.SegmentInChild | scripts/sync-structure.mjs:23-25 | a child path has an ignored segment iff its directory or its rest has one |
| Paths.DirNameOfChild | scripts/sync-structure.mjs:51 | `path.posix.dirname` and `basename` split `dir/name` into `dir` and `name` |
| Paths.StripTrailingSlashesFacts | scripts/sync-structure.mjs:52 | `replace(/\/+$/, "")` removes exactly the trailing run of slashes |
| Paths.StripLeadingSlashesFacts | scripts/validate-site.mjs:232 | `replace(/^\/+/, "")` removes exactly the leading run of slashes |
| SyncStructure.RouteOf | scripts/sync-structure.mjs:43-57 | under either cleaning, a file contributes a route iff its name is `index.html` in any case and no segment is ignored; a route is `/` or starts and ends with `/` |
| SyncStructure.IndexHtmlName | scripts/sync-structure.mjs:43-46 | `index.html` is one lower-case segment that is not ignored |
| SyncStructure.RootIndexRoute | scripts/sync-structure.mjs:46-48 | under either cleaning, the root `index.html` maps to `/` |
| SyncStructure.DirIndexRoute | scripts/sync-structure.mjs:51-57 | `d/index.html` maps to `/d/` for every normal, non-ignored directory `d`: as written when `d` does not start with a dot, and under the corrected cleaning for every such `d` |
| SyncStructure.DirIndexFile | scripts/sync-structure.mjs:43-51 | `d/index.html` is an index file in directory `d`, not ignored and not the root file |
| SyncStructure.CleanNormalDir | scripts/sync-structure.mjs:52 | the script's cleaning leaves a normal directory path unchanged when it does not start with a dot; the corrected cleaning leaves every normal path unchanged |
| SyncStructure.CleanDotDirAsWritten | scripts/sync-structure.mjs:52 | as written, the cleaning drops the leading dot of a normal directory such as `.hidden`; the corrected cleaning keeps it |
| SyncStructure.CleaningsAgree | scripts/sync-structure.mjs:52 | both cleanings of a normal directory are non-empty, and they agree exactly when it does not start with a dot |
| SyncStructure.RoutesAgree | scripts/sync-structure.mjs:43-57 | for a normal path, the script's route equals the corrected route iff the cleaning as written keeps the file's directory (`DirKept`) |
| SyncStructure.UpperIndexRoute | scripts/sync-structure.mjs:43-57 | `d/INDEX.HTML` contributes the route `/d/`, like `d/index.html`, under the same premises as `DirIndexRoute` |
| SyncStructure.HiddenDirRouteAsWritten | scripts/sync-structure.mjs:52 | as written, `.hidden/index.html` maps to `/hidden/` |
| SyncStructure.HiddenDirRoute | scripts/sync-structure.mjs:51-57 | with the corrected cleaning, `.hidden/index.html` maps to `/.hidden/` |
| SyncStructure.Discovered | scripts/sync-structure.mjs:27-59 | under either cleaning, the route set holds no duplicates and holds exactly the routes some walked file contributes |
| SyncStructure.DiscoveredStep | scripts/sync-structure.mjs:39-58 | meeting one more file adds its route at the end when it is new, and changes nothing otherwise |
| SyncStructure.Insert | scripts/sync-structure.mjs:63-67 | insertion adds exactly one element |
| SyncStructure.SortRoutes | scripts/sync-structure.mjs:63-67 | sorting keeps the length and the elements |
| SyncStructure.InsertSorted | scripts/sync-structure.mjs:63-67 | inserting a new route into a sorted list keeps it sorted under the comparator |
| SyncStructure.SortRoutesSorted | scripts/sync-structure.mjs:63-67 | the sorted routes are ordered with `/` before all and the rest by collation, and stay duplicate-free |
| SyncStructure.IndexRoutes | scripts/sync-structure.mjs:27-68 | the walk-and-sort loop returns exactly the sorted discovered routes |
| SyncStructure.IndexRoutesFacts | scripts/sync-structure.mjs:27-68 | the routes are duplicate-free, sorted, exactly the contributed ones, all folder routes, and `/` comes first when present |
| SyncStructure.DepthOfDirRoute | scripts/sync-structure.mjs:81 | the depth of `/d/` is the number of segments of `d` |
| SyncStructure.RoutePriority | scripts/sync-structure.mjs:79-83 | `/` has priority 1.0, a one-segment route 0.8, a deeper one 0.7 |
| SyncStructure.UrlEntriesAt | scripts/sync-structure.mjs:91-98 | block `i` of the entries is the `<url>` block of route `i`, with its absolute URL and priority |
| SyncStructure.SitemapLines | scripts/sync-structure.mjs:85-100 | the push loop builds exactly the header, one block per route in order, and the closing tag |
| SyncStructure.SitemapLayout | scripts/sync-structure.mjs:86-100 | the sitemap has 5 lines per route plus 3: two header lines, route `i`'s block at lines `2+5i..7+5i`, `</urlset>` last |
| SyncStructure.Sync | scripts/sync-structure.mjs:104-118 | a non-object manifest or a missing or empty string `baseUrl` is an error; otherwise `pages` becomes the routes, every other field is kept, and the sitemap is written from the same routes |
| ValidateSite.RouteFileOfDir | scripts/validate-site.mjs:232-233 | route `/d/` needs the file `d/index.html` |
| ValidateSite.PublishedHtml | scripts/validate-site.mjs:140-167 | the published pages are exactly the walked files whose lower-cased name ends in `.html` and that have no ignored segment |
| ValidateSite.NormalizeUrlForCompare | scripts/validate-site.mjs:89-111 | the key is empty iff the input is blank; otherwise it starts with the normalised host and ends with the normalised path |
| ValidateSite.SameKeyIff | scripts/validate-site.mjs:86-111 | two non-blank URLs whose parsed host has no `/` and whose parsed path starts with `/` compare equal iff their hosts agree once lower-cased and rid of one leading `www.`, and their paths agree once folder paths end in `/` |
| ValidateSite.HostPathSplit | scripts/validate-site.mjs:110 | a slash-free host followed by a path starting with `/` is split back uniquely, so the key determines both parts |
| ValidateSite.WwwIsIgnored | scripts/validate-site.mjs:101-102 | a `www.` host compares equal to the bare host, case-insensitively |
| ValidateSite.SlashIsNotFile | scripts/validate-site.mjs:105 | a path ending in `/` never looks like a file |
| ValidateSite.NormalizePathFacts | scripts/validate-site.mjs:104-108 | a normalised path is `/`, ends with `/` or looks like a file; it is the path or the path plus `/`; normalising twice changes nothing |
| ValidateSite.TrailingSlashIsIgnored | scripts/validate-site.mjs:104-108 | a folder path without and with its trailing slash compare equal |
| ValidateSite.FindFrom | scripts/validate-site.mjs:123-125 | `exec` from `lastIndex` finds a match ending after `lastIndex` |
| ValidateSite.AllFrom | scripts/validate-site.mjs:125-126 | the matches from `lastIndex` on are the match found there, then those after its end |
| ValidateSite.ExtractSitemapLocs | scripts/validate-site.mjs:121-129 | the `exec` loop collects exactly every `<loc>` capture, in document order |
| ValidateSite.LocsAreClean | scripts/validate-site.mjs:123-126 | every extracted loc is trimmed and holds no `<` |
| ValidateSite.FirstBadHref | scripts/validate-site.mjs:279-296 | finds the first href that is not allowed, or none iff all are allowed |
| ValidateSite.HrefRule | scripts/validate-site.mjs:279-296 | a non-blank href without an allowed scheme or `#` is rejected, and rooting it at `/` makes it allowed |
| ValidateSite.CheckIncludes | scripts/validate-site.mjs:258-266 | passes iff the page has the header include, the footer include and the script; the checks are made in that order |
| ValidateSite.CheckLinks | scripts/validate-site.mjs:269-296 | passes iff the page has no `./`/`../` link, no `.html` link and only allowed hrefs; a reported href is one of the page's and is not allowed |
| ValidateSite.CheckHead | scripts/validate-site.mjs:299-309 | passes iff the page has a title, a meta description and a canonical link; the checks are made in that order |
| ValidateSite.CheckPage | scripts/validate-site.mjs:248-310 | `404.html` always passes; any other page passes iff it has its includes, rooted links and head tags; a link problem is reported only after the includes pass, and a head problem only after the links pass too |
| ValidateSite.RelativeLinkRejected | scripts/validate-site.mjs:245-270 | a page containing `href="./` is rejected |
| ValidateSite.CheckPages | scripts/validate-site.mjs:203-207 | the pages pass iff every entry is a string that starts with `/` and is a folder route |
| ValidateSite.MissingFromSitemap | scripts/validate-site.mjs:219-226 | no URL is missing iff every page's absolute URL has its key in the sitemap; a reported URL is a page's absolute URL whose key is absent |
| ValidateSite.FirstMissingRouteFile | scripts/validate-site.mjs:228-237 | the reported index is the first route other than `/` in manifest order whose `index.html` is missing; nothing is reported exactly when every such route has its file |
| ValidateSite.ManifestProblem | scripts/validate-site.mjs:182-207 | the manifest passes iff it parses to an object with a non-empty string `baseUrl`, an array `sections` and a non-empty `pages` of good routes |
| ValidateSite.SitemapProblem | scripts/validate-site.mjs:210-237 | the sitemap passes iff it has a `<loc>`, every page's URL is in it, and every route file exists |
| ValidateSite.ValidateManifestAndSitemap | scripts/validate-site.mjs:181-240 | passes iff the manifest is well formed and its pages pass the sitemap and route-file checks |
| ValidateSite.MissingRequired | scripts/validate-site.mjs:175-179 | passes iff every required file exists; a reported file is required and missing |
| ValidateSite.FirstBadPage | scripts/validate-site.mjs:248-310 | when nothing is reported, every published page passes; a reported page is published and fails with the reported problem |
| ValidateSite.Validate | scripts/validate-site.mjs:313-317 | the site passes iff the required files exist, the manifest and sitemap pass, and every published page passes |
| Patterns.TextOccurs | scripts/validate-site.mjs:258 | a literal pattern occurs in a page exactly where `includes` finds it |
| SiteConsistency.LocElement | scripts/validate-site.mjs:123 | a `<loc>` element around a clean URL yields that URL, then whatever follows |
| SiteConsistency.SkipPrefix | scripts/validate-site.mjs:123-125 | text with no `<l` or `<L` adds no `<loc>` capture |
| SiteConsistency.EntryYieldsUrl | scripts/sync-structure.mjs:93-97 | each written `<url>` block yields exactly its URL to the validator |
| SiteConsistency.EntriesYieldUrls | scripts/sync-structure.mjs:91-98 | the written blocks yield the routes' URLs in route order |
| SiteConsistency.JoinIsUnlines | scripts/sync-structure.mjs:101 | joining with newlines and adding a final newline ends every line with a newline |
| SiteConsistency.SitemapRoundTrip | scripts/sync-structure.mjs:85-102 | extracting the `<loc>`s of a written sitemap gives back exactly its routes' absolute URLs, in order |
| SiteConsistency.FolderRouteIsGoodPage | scripts/validate-site.mjs:203-207 | every route the sync derives passes the manifest route checks |
| SiteConsistency.RouteFileOfRoute | scripts/validate-site.mjs:232-233 | under either cleaning, for a normal path named `index.html` in lower case whose directory the cleaning keeps, the file the validator expects for its non-root route is that file itself |
| SiteConsistency.RootFileRoute | scripts/sync-structure.mjs:46-56 | under either cleaning, a top-level `index.html` gives `/` or nothing |
| SiteConsistency.RoutesInSitemap | scripts/validate-site.mjs:217-226 | every route's URL is found in a sitemap listing the routes' URLs |
| SiteConsistency.RouteFilesExist | scripts/validate-site.mjs:228-237 | when every walked file exists, is a normal path, has its index name in lower case and keeps its directory under the cleaning, every derived route has its file |
| SiteConsistency.FolderRoutesPass | scripts/validate-site.mjs:203-207 | a list of derived routes written as `pages` passes the page checks and reads back unchanged |
| SiteConsistency.RoutesManifestValidates | scripts/validate-site.mjs:181-240 | a manifest carrying folder routes whose sitemap lists their URLs and whose files exist passes |
| SiteConsistency.SyncedSiteValidates | scripts/validate-site.mjs:181-240 | what the sync writes passes the validator's manifest, sitemap and route-file checks whenever the manifest has a `sections` array, a route was found, the walked files exist and are normal paths, every index file is spelled `index.html`, every page keeps its directory under the cleaning (always so when corrected), the URLs are clean and the comparator is a strict total order |
| SiteConsistency.HiddenDirFailsValidationAsWritten | scripts/validate-site.mjs:229-236 | as written, the route of `.hidden/index.html` fails the route-file check although the file exists |
| SiteConsistency.HiddenDirPassesValidation | scripts/validate-site.mjs:229-236 | with the corrected cleaning, the same site passes the route-file check |
| SiteConsistency.UpperCaseIndexFailsValidation | scripts/validate-site.mjs:232-234 | under either cleaning, `hidden/INDEX.HTML` gives the route `/hidden/`, and the validator then reports that route's file missing although the walked file exists |

## Left out

- GitHub REST calls (`ghFetch`, listing issues and pulls, the POST that creates an issue):
  the tracker's lists are inputs and the creation is an output value (`CreateIssue`).
  Transport errors and the 100-item page limit are not modelled.
- The `GITHUB_TOKEN` environment variable, whose check at dispatch-next-task.mjs:12 runs
  before the `REPO` one. `REPO` is an input of `Dispatch.DispatchNext`, and `TASK_ID` is
  the `id` input of `MarkComplete.CompleteTask`. Both model the empty-value check that
  `requiredEnv` makes when the script loads. Console output and process exit are left
  out too.
- File reads and writes, `existsSync` and the recursive `readdirSync` walks. A walk is
  the list of relative paths it meets; symbolic links and non-regular files are not modelled.
  `existing` is a set of path strings, not a file-system lookup. `path.join` normalisation
  and the difference between a file and a directory are not modelled.
- Git configuration, commit and push in `mark-task-complete.mjs`, and the shell quoting of
  the commit message. The model returns the commit message as a value.
- The JSON text round trip: the model works on parsed values. `JSON.stringify`
  indentation, the key order of the rewritten manifest, and fractional or very large
  numbers are not modelled.
- WHATWG URL parsing and serialisation: `resolve` and `parse` are parameters.
  `SiteConsistency.SitemapRoundTrip` assumes the resolved URLs are clean, meaning
  non-empty with no `<` and no whitespace (`CleanUrl`).
- SyncStructure.Sync: `resolve` is total. `new URL(route, baseUrl)` throws at
  sync-structure.mjs:92 when `baseUrl` is not an absolute URL (such as `example.com`).
  The script has then already rewritten the manifest (line 117) but not the sitemap
  (line 118). That failure is not modelled.
- ValidateSite.MissingFromSitemap: `resolve` is total, so the exception `toAbsolute`
  (validate-site.mjs:114) raises on a `baseUrl` that is not an absolute URL is not modelled.
- ValidateSite.NormalizeUrlForCompare: `parse` is total, so the exception of the fallback
  `new URL(s, base)` (validate-site.mjs:98) on text that is not even a relative URL is not
  modelled.
- SiteConsistency.SyncedSiteValidates: requires every walked index file to be spelled
  `index.html` in lower case. The walk also takes `INDEX.HTML` (sync-structure.mjs:43), and
  the validator then looks for `index.html` (validate-site.mjs:233). On a case-sensitive
  file system that file does not exist, as `SiteConsistency.UpperCaseIndexFailsValidation`
  shows. Whether the file system folds case is not modelled.
- SiteConsistency.SyncedSiteValidates: for the script's own cleaning, also requires that
  no page lies below a directory whose name starts with a dot (`DirKept`). The Findings
  row shows the failure otherwise.
- SiteConsistency.RouteFilesExist: has the same two premises, lower-case `index.html`
  and `DirKept`, for the same reasons.
- SiteConsistency.RouteFileOfRoute: has the same two premises, for the same reasons.
- SyncStructure.DirIndexRoute: for the script's own cleaning, holds only for a directory
  that does not start with a dot; `SyncStructure.HiddenDirRouteAsWritten` gives the other case.
- SyncStructure.CleanNormalDir: for the script's own cleaning, holds only for a path that
  does not start with a dot; `SyncStructure.CleanDotDirAsWritten` gives the other case.
- SyncStructure.SortRoutes: `localeCompare` is a parameter `less`, assumed to be a strict
  total order. The collation itself is locale-dependent and not modelled.
- `toLowerCase` and the `i` flag are modelled for ASCII letters only. Unicode case
  mapping of other letters is left out.
- Strings are sequences of Unicode characters, while JavaScript strings are UTF-16 code
  units. Surrogate pairs are not modelled. The `U+2014` dash is one character in both.
- `parseInt` and template printing use unbounded natural numbers. Precision loss above
  2^53 and exponent notation are left out.
- `path.sep` conversion (`toPosix`) on Windows is left out: paths are POSIX already.
- `js/script.js` and `js/include-partials.js` are browser code, not part of this model.
- `isPublishedPage` always returns true and `warn` is never called, so neither appears.
- ValidateSite.MissingFromSitemap: states that the reported URL belongs to some page whose
  key is missing, not that it is the first such page.
- ValidateSite.MissingRequired: states that the reported file is required and missing,
  not that it is the first such file.
- ValidateSite.FirstBadPage: states that the reported page is published and fails with
  the reported problem, not that it is the first failing page in walk order.
- ValidateSite.CheckPages: states which kinds of problem can be reported, not which page
  is reported.
- The ledger formats follow the code. The dispatcher parses only the `Task N —` / `Status:`
  header syntax, and the completion script only ticks `- [ ] id:<id>` checklist items.
  There is no checklist parser, no header-syntax status rewrite and no
  `invalid_identifier` reason, because the scripts have none.
- The stateful `g` flag on the validator's `badRelative` and `badHtmlLinks` patterns does
  not matter: a successful `test` ends the run, and a failed one resets `lastIndex`. Each
  page is therefore checked from the start.
- Races between concurrent dispatch runs depend on live tracker state, not on these scripts.

## Findings

| source | as written | input that shows it | evidently intended | confidence | as-written member | corrected member |
|---|---|---|---|---|---|---|
| scripts/sync-structure.mjs:52 | `replace(/^\.?\/?/, "")` removes a leading `.` even when it starts a directory name | the walk meets `.hidden/index.html`; the route becomes `/hidden/`, and the validator then expects `hidden/index.html`, which does not exist | remove only a `./` prefix or a lone `.`, so the route is `/.hidden/` | medium, not executed | SiteConsistency.HiddenDirFailsValidationAsWritten | SiteConsistency.SyncedSiteValidates |

The corrected member is proved for the `Intended` cleaning on every walk, and for
`AsWritten` under `DirKept`. `SyncStructure.RoutesAgree` shows that the two cleanings
differ exactly on the pages that `DirKept` excludes.
`SiteConsistency.HiddenDirPassesValidation` is the same hidden-directory example under
the corrected cleaning.
