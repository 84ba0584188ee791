# Flipbook and resource downloader: a Dafny model

This project models the logic of three Node scripts that run as a pipeline.
All three work on plain strings and lists, and the model covers those parts.

1. `extract_links_by_domain.js` scans HTML pages. It groups every `href`/`src`
   URL by host and writes `all_links_by_domain.txt`. Each host gets a line,
   and its URLs follow, sorted and indented by two spaces.
2. `download_resources.js` reads that file. It keeps the trimmed
   `http(s)://` lines, skips fliphtml5 viewer URLs, and downloads each of the
   others to `downloaded_resources/<host>/<path>`. Each URL it does not skip
   gets one line in a success log or a failure log.
3. `download_fliphtml5.js` reads the same file and keeps the fliphtml5 viewer
   URLs. For each one it:
   - derives a job code from the URL;
   - records the `.webp` requests the viewer makes;
   - keeps the non-thumbnail images, sorted;
   - downloads them to `page-NNN.webp` files, skipping a failed download;
   - builds a PDF from them;
   - logs success or one of three failure messages.

The modules are:

- `Text`: the JavaScript string operations used. These are `trim`,
  `split(/\r?\n/)`, `join`, `includes`, `startsWith`, `split('?')[0]`,
  `String(n)` and `padStart`.
- `Ordering`: the default `sort()` order on strings, an insertion sort, and
  JavaScript Sets seen as duplicate-free sequences in insertion order.
- `Flipbook`, `Resources` and `Links`: one module per script.
- `Pipeline`: what the downloader reads back from the extractor's file.

Collaborators that cannot be modelled are given as inputs. These are the
browser, the HTTP client, the image converter, the PDF library, the HTML
parser and the URL parser. Code that updates state in place is modelled
imperatively:

- the `requestfinished` Set is `Flipbook.WebpRecorder`;
- `domainMap` is `Links.DomainMap`;
- the download loops, the log appends and the `out` array are loops.

Each loop is proved equal to a recursive specification function, and the
promised properties are proved about that function.

## Model

| member | source | states |
|---|---|---|
| `Text.Trim` | download_resources.js:33 | `trim` returns the characters of the line that start right after its leading white space (`Window`, the slice, as `WindowSlice` shows); the first and last of them are not ECMAScript white space or line terminators, and every character of the line that is not white space lies inside them |
| `Text.WindowSlice` | download_resources.js:33 | the characters `Trim` keeps, taken one at a time, are the slice of the line at that position |
| `Text.TrimmedEnds` | download_resources.js:33 | a line that is its own trim has no white space at either end |
| `Text.TrimPadded` | download_resources.js:33 | white space in front of a line with no white space at either end is all that `trim` removes |
| `Text.TrimIdempotent` | download_fliphtml5.js:16 | trimming a trimmed line changes nothing |
| `Text.Contains` | download_fliphtml5.js:35 | `includes(t)` holds exactly when `t` occurs at some position |
| `Text.Before` | download_fliphtml5.js:36 | `split('?')[0]` is a prefix that holds no `?` and ends at the first `?` or at the end of the string |
| `Text.BeforeIsUpToFirst` | download_fliphtml5.js:36 | the prefix stops exactly at the first occurrence of the separator |
| `Text.SplitLines` | download_resources.js:30 | `split(/\r?\n/)` yields at least one piece, and no piece holds a line feed (what the pieces are: `NoLfOnePiece`, `SplitCrLf`, `SplitAfterFirst`, `JoinSplit`) |
| `Text.NoLfOnePiece` | download_resources.js:30 | a text with no line feed is one piece, kept whole even when it holds a CR, as a last line `https://a/x\r` without a final LF is |
| `Text.JoinSplit` | download_resources.js:30 | a text with no CR comes back unchanged from `split(/\r?\n/)` then `join('\n')`, so the pieces are exactly the text cut at every line feed |
| `Text.SplitCrLf` | download_resources.js:30 | a CR right before a line feed is dropped with it: `a\r\nb` splits as `a` followed by the pieces of `b` |
| `Text.SplitAfterFirst` | download_resources.js:30 | a line with no LF and no final CR, then a LF, splits as that line followed by the pieces of the rest |
| `Text.Join` | extract_links_by_domain.js:61 | `join` of no lines is empty, of one line is that line, and otherwise starts with the first line (inverse: `SplitJoin`, `JoinSplit`) |
| `Text.SplitJoin` | extract_links_by_domain.js:61 | lines with no LF, none but the last ending in CR, come back unchanged from `join('\n')` then `split(/\r?\n/)` |
| `Text.NatToString` | download_fliphtml5.js:62 | `String(n)` is all digits, has no leading zero and denotes `n` |
| `Text.NatToStringLength` | download_fliphtml5.js:62 | the numeral has at most three digits exactly when `n < 1000` |
| `Text.PadStart` | download_fliphtml5.js:62 | `padStart` leaves a long enough string alone; otherwise it pads to exactly `len` with the fill character in front |
| `Text.PaddedNumeralValue` | download_fliphtml5.js:62 | a zero-padded numeral still denotes its number |
| `Text.SelectTrimmed` | download_fliphtml5.js:15-17 | the selection is no longer than the input, and `keep` accepts each selected line |
| `Text.PositionsSelect` | download_fliphtml5.js:15-17 | the selection has one entry per selected position, and each entry is the trimmed line at that position |
| `Text.PositionsIncreasing` | download_fliphtml5.js:15-17 | the selected positions strictly increase, so the filter keeps input order |
| `Text.PositionsComplete` | download_fliphtml5.js:15-17 | a line's position is selected exactly when its trimmed form is accepted, so no qualifying line is dropped and no other line is taken |
| `Text.SelectTrimmedAppend` | download_resources.js:32-37 | selecting from two blocks of lines selects from each in turn |
| `Text.TrimIndented` | download_resources.js:33 | `trim` removes an indent of spaces from a line that is already its own trim |
| `Ordering.LessEqTransitive` | download_fliphtml5.js:50 | the string order is transitive |
| `Ordering.LessEqAntisymmetric` | download_fliphtml5.js:50 | two strings that each sort no later than the other are equal |
| `Ordering.LessEqTotal` | download_fliphtml5.js:50 | any two strings are ordered one way or the other |
| `Ordering.SetAdd` | download_fliphtml5.js:36 | `Set.add` keeps the elements distinct, adds exactly `x`, and keeps the insertion order of the earlier elements |
| `Ordering.Sort` | extract_links_by_domain.js:53 | `sort()` returns an ascending permutation of its input |
| `Ordering.SortKeepsElements` | extract_links_by_domain.js:56 | sorting keeps the length and the set of elements |
| `Ordering.SortOfSorted` | download_fliphtml5.js:50 | sorting an ascending sequence returns it unchanged |
| `Ordering.SortedPermutationUnique` | download_fliphtml5.js:50 | two ascending permutations of each other are equal, so the result does not depend on the sort algorithm |
| `Ordering.SortDistinct` | extract_links_by_domain.js:56 | sorting a duplicate-free sequence gives a strictly ascending one |
| `Flipbook.ParseFlipUrls` | download_fliphtml5.js:13-18 | every returned URL starts with `https://online.fliphtml5.com/` (order and completeness: `Text.PositionsIncreasing`, `Text.PositionsComplete`) |
| `Flipbook.CodeMatch` | download_fliphtml5.js:113 | a result is a match of `/\/([a-z0-9]+)\/?$/i`, and every match of the expression has that group, so the match is unique |
| `Flipbook.JobCode` | download_fliphtml5.js:113-114 | the job code is a non-empty run of letters and digits |
| `Flipbook.JobCodeOfFinalSegment` | download_fliphtml5.js:112-114 | a URL ending in `/<segment>` or `/<segment>/` of letters and digits has that segment as its code |
| `Flipbook.JobCodeExample` | download_fliphtml5.js:112 | `.../sxzzv/alas/` gives `alas` |
| `Flipbook.JobCodeFallback` | download_fliphtml5.js:113-114 | the expression fails exactly when no position of the URL matches it, and then the job code is `flipbook` |
| `Flipbook.JobCodeDashEnd` | download_fliphtml5.js:114 | for instance a URL ending in `-` gives `flipbook` |
| `Flipbook.StoredForm` | download_fliphtml5.js:35-36 | a request is stored exactly when it contains `.webp`; what is stored is a prefix of it that holds no `?` |
| `Flipbook.Recorded` | download_fliphtml5.js:30-38 | the Set's elements are distinct |
| `Flipbook.RecordedSpec` | download_fliphtml5.js:33-38 | a URL is recorded exactly when it is the stored form of some finished `.webp` request; no recorded URL holds `?` |
| `Flipbook.QueryVariantCollapses` | download_fliphtml5.js:36 | a request that differs from an earlier `.webp` request only after `?` adds no entry |
| `Flipbook.WebpRecorder.constructor` | download_fliphtml5.js:30 | the Set starts empty |
| `Flipbook.WebpRecorder.OnRequestFinished` | download_fliphtml5.js:33-38 | the listener adds the stored form of a `.webp` request to the Set and keeps it distinct and free of `?` |
| `Flipbook.RecordRequests` | download_fliphtml5.js:30-42 | feeding every finished request to the listener, in order, leaves the Set holding exactly `Recorded` of those requests |
| `Flipbook.WithoutThumbs` | download_fliphtml5.js:50 | the filter keeps exactly the non-thumbnail elements, no more of each than the input has |
| `Flipbook.PageSequence` | download_fliphtml5.js:50 | the page sequence is ascending and takes each recorded URL at most as often as it was recorded |
| `Flipbook.PageSequenceSpec` | download_fliphtml5.js:50 | the page sequence has no `/thumb/` entry and is ascending; it holds exactly the recorded non-thumbnail URLs; it is no longer than the recorded list; it is strictly ascending, so duplicate-free, when the recorded URLs are distinct |
| `Flipbook.PageSequenceOfRecorded` | download_fliphtml5.js:30-50 | the page sequence built from the recorded Set is strictly ascending, so duplicate-free, holds no `/thumb/` entry and no `?`, and every entry is a recorded URL |
| `Flipbook.PageSequenceIdempotent` | download_fliphtml5.js:50 | filtering and sorting again changes nothing |
| `Flipbook.PageSequenceIgnoresOrder` | download_fliphtml5.js:50 | the order in which the Set received its elements does not change the page sequence |
| `Flipbook.WithoutThumbsOfClean` | download_fliphtml5.js:50 | a sequence with no thumbnail passes the filter unchanged |
| `Flipbook.PageFileName` | download_fliphtml5.js:62 | a page file lies in the job's directory, is named `page-…`, ends in `.webp`, and below page 1000 has a name of fixed length (three digits) |
| `Flipbook.PageFileNameSpec` | download_fliphtml5.js:62 | below page 1000 the page number has exactly three digits, and two indices never share a file name |
| `Flipbook.FirstPageFileName` | download_fliphtml5.js:62 | index 0 is `page-001.webp` |
| `Flipbook.Downloaded` | download_fliphtml5.js:57-72 | no more buffers than pages (contents: `DownloadedPositions`) |
| `Flipbook.DownloadedPositions` | download_fliphtml5.js:60-72 | the `k`-th buffer is the data fetched for the `k`-th successful page, and every page whose download succeeds has a buffer, so the buffers are exactly the successful downloads in page order |
| `Flipbook.DownloadedCount` | download_fliphtml5.js:60-72 | nothing is downloaded exactly when every download fails; everything is downloaded exactly when none fails |
| `Flipbook.PageFiles` | download_fliphtml5.js:62-65 | one page file per kept buffer, holding that buffer |
| `Flipbook.PageFilesNames` | download_fliphtml5.js:62 | the `k`-th page file is named after the page index of the `k`-th successful download |
| `Flipbook.PageFilesDistinct` | download_fliphtml5.js:62-65 | no two page files of a job share a name |
| `Flipbook.DownloadPages` | download_fliphtml5.js:57-72 | the loop keeps exactly the successful downloads in page order, skipping failures; `downloadSuccess == imageBuffers.length <= filteredUrls.length`; the files written are `PageFiles` |
| `Flipbook.Embedded` | download_fliphtml5.js:81-92 | the PDF gets no more images than were downloaded, each one of them (which ones and in what order: `EmbeddedOne`, `EmbeddedAppend`) |
| `Flipbook.EmbeddedOne` | download_fliphtml5.js:82-91 | one image gives one PDF page when it converts and embeds, and none when either step fails |
| `Flipbook.EmbeddedAppend` | download_fliphtml5.js:81-92 | the pages of two runs of images are the pages of the first followed by those of the second, so with `EmbeddedOne` the PDF holds exactly the images that embed, one page each, in page order, whichever of the others fail |
| `Flipbook.EmbeddedAll` | download_fliphtml5.js:81-92 | every image reaches the PDF exactly when none fails to convert or embed |
| `Flipbook.AssemblePdf` | download_fliphtml5.js:80-92 | the loop's pages are `Embedded` of the buffers: one page per image that converts and embeds, in order, skipping the rest (`EmbeddedOne`, `EmbeddedAppend`) |
| `Flipbook.JobOutcome` | download_fliphtml5.js:45-77 | a navigation error is the job's failure message; any other failure is one of the three messages of the ladder; a success names the job's PDF, counts at least one downloaded image, and has no more PDF pages than downloaded images |
| `Flipbook.JobOutcomeLadder` | download_fliphtml5.js:45-55 | no recorded asset fails with "No .webp files detected on page"; only thumbnails fails with "No non-thumb .webp images found for PDF"; every download failing fails with "No images downloaded for PDF" |
| `Flipbook.JobSucceeds` | download_fliphtml5.js:45-77 | a job succeeds exactly when navigation succeeded and at least one page of the sequence downloaded |
| `Flipbook.JobOutcomeCounts` | download_fliphtml5.js:75-97 | a successful job logs `imageBuffers.length`, between 1 and the page count; the PDF has no more pages than that, and exactly that many when every image embeds |
| `Flipbook.DownloadFlipbookAsPdf` | download_fliphtml5.js:20-107 | the job ends as the ladder says. A failure appends one failure line and no success line, writes no PDF and keeps the temp dir. A success appends one success line, writes the PDF and removes the temp dir; the PDF holds the downloaded images of the page sequence that embed, in page order. The page files are the ones the download loop wrote |
| `Flipbook.SuccessLine` | download_fliphtml5.js:97 | the success line starts with `<url> -> <pdf> (`, ends with a line feed, and holds no other line feed when the URL and path have none |
| `Flipbook.FailLine` | download_fliphtml5.js:103 | the failure line starts with `<url> -> `, ends with a line feed, and holds no other line feed when the URL and message have none |
| `Flipbook.SuccessLog` | download_fliphtml5.js:97 | a run appends at most one success line per URL |
| `Flipbook.FailLog` | download_fliphtml5.js:103 | a run appends at most one failure line per URL |
| `Flipbook.OneLinePerUrl` | download_fliphtml5.js:97-103 | every job leaves exactly one line, in one log or the other, given that removing the temp dir succeeds (see Left out) |
| `Flipbook.RunJobs` | download_fliphtml5.js:111-116 | the loop runs one job per URL in order, whatever earlier jobs did, and concatenates their log lines |
| `Flipbook.DownloadAll` | download_fliphtml5.js:109-117 | every URL of the input file is attempted with its own code; the run leaves exactly one log line per URL, given that every temp-dir removal and browser close succeeds (see Left out) |
| `Resources.ParseUrls` | download_resources.js:29-39 | the loop returns the trimmed lines that start with `http://` or `https://`, in input order (positions: `Text.PositionsSelect`, `Text.PositionsIncreasing`, `Text.PositionsComplete`); each result is its own trim |
| `Resources.CollapseSlashes` | download_resources.js:52 | the joined path holds no `//`, uses only characters of its input, and is unchanged when it had no `//` |
| `Resources.CleanPath` | download_resources.js:51 | the pathname is the clean path with exactly one leading `/` restored, when there was one |
| `Resources.DestPath` | download_resources.js:50-52 | every character of the destination comes from `downloaded_resources/`, the host, the pathname or `index`, so the query string never reaches it |
| `Resources.DestPathSpec` | download_resources.js:51-52 | for a host other than `.` and `..` and a pathname without `//`, the destination is `downloaded_resources/<host>/<pathname minus one leading '/'>`, or `.../<host>/index` when that is empty |
| `Resources.DestPathDotHosts` | download_resources.js:51-52 | for a pathname without `//`, the join resolves the host `.` to `downloaded_resources/<path>` and the host `..` to `<path>` (or `index`), outside the output directory |
| `Resources.DestPathParentExample` | download_resources.js:49-52 | `http://../a.png` is saved as `a.png` in the working directory |
| `Resources.DestPathExample` | download_resources.js:50-52 | `https://h/a/b.png?v=1`, with pathname `/a/b.png`, is saved as `downloaded_resources/h/a/b.png`: the query string is not part of the path |
| `Resources.DestPathIndexExample` | download_resources.js:51-52 | `https://h/`, whose pathname is `/`, is saved as `downloaded_resources/h/index` |
| `Resources.StepOf` | download_resources.js:44-57 | a URL is skipped exactly when it starts with the fliphtml5 prefix; otherwise it is an invalid URL exactly when it does not parse, and else it is downloaded to `DestPath` of its host and pathname, succeeding exactly when the fetch does and failing with the fetch's message |
| `Resources.DownloadOne` | download_resources.js:11-57 | one URL, through the helper at :11-27 and the loop body at :44-57: a fliphtml5 URL is skipped with no request and no log line; a URL that does not parse logs `Invalid URL`; otherwise the full URL is requested and exactly one line is logged, `<url> -> <dest>` on success or `<url> -> <error message>` on failure |
| `Resources.CountAttempted` | download_resources.js:45-47 | at most one attempt per URL |
| `Resources.RunSpec` | download_resources.js:21-25 | each non-skipped URL leaves exactly one log line, and skipped ones none; no fliphtml5 URL is ever requested; every request is a full listed URL |
| `Resources.RunDownloads` | download_resources.js:43-58 | the loop processes every URL in order. It skips fliphtml5 URLs and logs `Invalid URL` for one that does not parse. Otherwise it requests the full URL and logs the destination or the fetch error. No outcome stops the loop |
| `Resources.DownloadAll` | download_resources.js:41-59 | for the URLs of the input file, the logs hold one line per non-skipped URL, and no requested URL is a fliphtml5 URL |
| `Links.AddLink` | extract_links_by_domain.js:43-44 | adding keeps every Set non-empty and duplicate-free. The keys gain exactly `host`. The filed pairs gain exactly `(host, href)` |
| `Links.Collect` | extract_links_by_domain.js:37-48 | the map after the scan is well formed: keys listed once and each Set non-empty and duplicate-free |
| `Links.CollectSpec` | extract_links_by_domain.js:39-46 | a URL is filed under a host exactly when some element has a non-empty value resolving to that URL with that host; no host is empty |
| `Links.DomainMap.constructor` | extract_links_by_domain.js:29 | the map starts empty |
| `Links.DomainMap.Visit` | extract_links_by_domain.js:39-46 | one callback applies the scan step to the object and keeps it well formed |
| `Links.DomainMap.File` | extract_links_by_domain.js:43-44 | creating the Set when the host is new and adding the URL to it is the `AddLink` step, and keeps the map well formed |
| `Links.DomainMap.Render` | extract_links_by_domain.js:52-60 | the `out` array is the layout of the sorted keys |
| `Links.PushDomains` | extract_links_by_domain.js:54-60 | the loop emits each domain followed by its sorted, indented URLs |
| `Links.PushIndented` | extract_links_by_domain.js:57-59 | the inner loop appends each URL with a two-space prefix |
| `Links.Indented` | extract_links_by_domain.js:58 | one line per URL: two spaces then the URL |
| `Links.Layout` | extract_links_by_domain.js:54-60 | at least one line per domain, none without domains, and the first line is the first domain |
| `Links.Output` | extract_links_by_domain.js:52-61 | the file is empty exactly when no host was recorded, and otherwise starts with the alphabetically first host |
| `Links.LayoutLength` | extract_links_by_domain.js:52-60 | the output has one line per domain plus one per URL |
| `Links.Blocks` | extract_links_by_domain.js:54-59 | the blocks are the domains in the given order, each with its sorted URLs |
| `Links.ParseBlock` | extract_links_by_domain.js:55-59 | a domain line followed by its indented URL lines reads back as that domain with those URLs |
| `Links.LayoutRoundTrip` | extract_links_by_domain.js:54-59 | reading the layout back recovers every domain in order, each followed immediately by all of its sorted URLs |
| `Links.LayoutLinesClean` | extract_links_by_domain.js:55-58 | no output line holds a line feed or ends in CR when no host or URL does |
| `Links.OutputSpec` | extract_links_by_domain.js:52-61 | domains strictly ascending, each with at least one URL line, and URLs strictly ascending under it. The file is joined with `\n` with no trailing newline, so reading it back line by line recovers exactly the blocks, and the line count is the domains plus the URLs. With no links the file is empty |
| `Links.ExtractLinks` | extract_links_by_domain.js:29-61 | the scan and rendering, run imperatively, write the text `Output` specifies |
| `Links.CollectAsWritten` | extract_links_by_domain.js:43-44 | the object as written: a scan that does not throw leaves a well-formed map |
| `Links.InheritedHostCrashes` | extract_links_by_domain.js:43-44 | a link to `http://constructor/`, or to `x://toString/` whose opaque host keeps its case, throws in the script as written, while the intended map files it |
| `Links.AsWrittenAgrees` | extract_links_by_domain.js:43-44 | without hosts named after a property of `Object.prototype`, the script as written and the intended map agree |
| `Pipeline.HostLineDropped` | download_resources.js:34 | a host line, which has no `/`, is never taken for a URL |
| `Pipeline.IndentedLinesRead` | download_resources.js:33-35 | the downloader's `trim` undoes the two-space indent of URL lines |
| `Pipeline.BlockRead` | download_resources.js:32-37 | a host block contributes the http(s) URLs among its URLs |
| `Pipeline.LayoutRead` | extract_links_by_domain.js:54-59 | from the layout the downloader selects exactly the http(s) URLs among the listed ones, in file order |
| `Pipeline.ExtractedLinksRead` | download_resources.js:29-39 | on the extractor's output, `parseUrlsFromFile` returns the extractor's http(s) URLs, domain by domain in ascending order, each domain's URLs ascending |

## Left out

- Browser automation is left out: puppeteer launch, navigation, the 5-second settle delay and closing the browser. A job receives the URLs of its finished requests in order, plus the error that launching or navigating raised, if any.
- Errors from `fs.ensureDir` are merged into that same navigation error. So are errors that are not `Error` objects, for which the script logs `err` itself rather than `err.message`.
- HTTP (axios) and file writes are outcomes given as inputs. In the flipbook job, `fetch` maps a page URL to its downloaded bytes or an error message. In the resource downloader, `fetches[i]` is the outcome for the `i`-th listed URL, covering download, directory creation and write together.
- Image conversion (sharp) and PDF embedding (pdf-lib) are left out. They are an `embeds` predicate on image bytes, and the PDF is the list of embedded images.
- Flipbook.DownloadFlipbookAsPdf: a failure of `pdfDoc.save()` or of writing the PDF is not modelled. Such a failure would send a job that has downloaded images to the failure log.
- Log appends are lists of lines. Directory creation, temp-dir removal, console output, the `async` scheduling and the `browser.close()` in `finally` are left out.
- Flipbook.OneLinePerUrl: a failure of `fs.remove(tempDir)` (download_fliphtml5.js:99) is not modelled. It comes after the success line is appended at :97 and lands in the catch at :103, so such a job leaves a success line and a failure line; the one-line-per-job promise holds only when the removal succeeds.
- Flipbook.DownloadAll: a failure of `browser.close()` in the `finally` (download_fliphtml5.js:105) is not modelled. It escapes `downloadFlipbookAsPdf`, and neither `main` (:109-117) nor the call at :119 catches it, so the run stops and the remaining URLs are never attempted; every URL is attempted only when every close succeeds.
- Resources.DestPath: `path.join` is modelled as joining with `/`, collapsing runs of `/` and resolving a host that is `.` or `..`. It does not resolve `.` or `..` segments inside the pathname, which the URL parser already removes from pathnames. Paths are POSIX.
- `new URL` is not modelled; the WHATWG URL standard's parser is outside this model. The downloader takes the host and pathname as an input function `parse`, where nothing means the constructor throws. The extractor takes each element's host and `href` as given.
- File discovery (glob), HTML parsing (cheerio), `<base href>` handling and the order in which elements are visited are left out. The extractor receives the visited elements in order.
- Ordering.Sort: JavaScript compares strings by UTF-16 code units. The model compares characters by code point, and the two orders differ only for characters outside the Basic Multilingual Plane.
- Links.OutputSpec: the round trip assumes that no host or URL holds a line feed or ends in a carriage return, and that no host starts with two spaces. URL hosts and serialized URLs satisfy this.
- Pipeline.ExtractedLinksRead: this assumes hosts hold no `/` and serialized URLs have no surrounding white space, as the URL parser guarantees.
- Resources.DestPathSpec: the exact form is stated only for hosts and pathnames without `//`, which are the ones the URL parser produces for ordinary paths, and for hosts other than `.` and `..` (those two are `DestPathDotHosts`). For a pathname that holds `//`, only the properties of `CollapseSlashes` are stated.

## Findings

| source | as written | input that shows it | evidently intended | confidence | as-written member | corrected member |
|---|---|---|---|---|---|---|
| extract_links_by_domain.js:43-44 | `domainMap` is a plain object `{}`. For a host named after a property of `Object.prototype` (`constructor`, `__proto__`, `toString`, `valueOf`, `hasOwnProperty` and the rest of `Links.InheritedKeys`), `domainMap[host]` is an inherited, truthy value that is not a Set, so no Set is created, and `.add` throws a TypeError. That ends the script before the output file is written. Special-scheme hosts are lower-cased, so there only `constructor` and `__proto__` occur; opaque hosts of other schemes keep their case | a page containing `<a href="http://constructor/">` or `<a href="x://toString/">` (`Links.InheritedHostCrashes`) | every host gets its own Set, as with a `Map` or `Object.create(null)` | medium, not executed | `Links.CollectAsWritten` | `Links.Collect` |
