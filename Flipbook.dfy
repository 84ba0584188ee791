/**
 * download_fliphtml5.js: for every fliphtml5 viewer URL listed in the input
 * file, replay the page-image requests the viewer made, keep the distinct
 * `.webp` assets that are not thumbnails in sorted order, download them one by
 * one (a failed download is skipped), turn the downloaded images into a PDF,
 * and append one line to the success log or the failure log.
 *
 * The browser, the HTTP client, the image converter and the PDF library are
 * not modelled: a job receives what they would have produced as a `JobEnv`.
 */
module Flipbook {
  import opened Wrappers
  import opened Text
  import opened Ordering
  import opened Sequences

  newtype byte = x: int | 0 <= x < 256
  type Bytes = seq<byte>

  const FlipPrefix := "https://online.fliphtml5.com/"
  const OutputDir := "downloaded_resources/online.fliphtml5.com"
  const WebpMarker := ".webp"
  const ThumbMarker := "/thumb/"
  const NoWebpMessage := "No .webp files detected on page"
  const NoPagesMessage := "No non-thumb .webp images found for PDF"
  const NoDownloadsMessage := "No images downloaded for PDF"

  // ---------------------------------------------------------------------------
  // Input file

  predicate IsFlipUrl(line: string) {
    StartsWith(line, FlipPrefix)
  }

  /** `parseFlipUrlsFromFile`: the trimmed lines of the file that are fliphtml5 viewer URLs. */
  function ParseFlipUrls(text: string): (urls: seq<string>)
    ensures forall k :: 0 <= k < |urls| ==> StartsWith(urls[k], FlipPrefix)
  {
    SelectTrimmed(SplitLines(text), IsFlipUrl)
  }

  // ---------------------------------------------------------------------------
  // Job code: `url.match(/\/([a-z0-9]+)\/?$/i)`

  /** The characters `[a-z0-9]` matches under the `i` flag. */
  predicate IsCodeChar(c: char) {
    'a' <= c <= 'z' || 'A' <= c <= 'Z' || '0' <= c <= '9'
  }

  /** The regular expression matches `url` from position `p` on, with `code` as its group. */
  ghost predicate CodeMatchAt(url: string, p: int, code: string) {
    && 0 <= p < |url| && url[p] == '/'
    && |code| >= 1 && (forall k :: 0 <= k < |code| ==> IsCodeChar(code[k]))
    && (url[p + 1..] == code || url[p + 1..] == code + "/")
  }

  /** The number of code characters at the end of `s`. */
  function TrailingCodeChars(s: string): (n: nat)
    ensures n <= |s|
    ensures forall k :: |s| - n <= k < |s| ==> IsCodeChar(s[k])
    ensures n == |s| || !IsCodeChar(s[|s| - 1 - n])
  {
    if |s| > 0 && IsCodeChar(s[|s| - 1]) then 1 + TrailingCodeChars(s[..|s| - 1]) else 0
  }

  /**
   * The group the regular expression captures, if it matches: the run of code
   * characters at the end of the URL, once an optional final `/` is set aside,
   * when a `/` comes right before it. The match, if any, is unique.
   */
  function CodeMatch(url: string): (m: Option<string>)
    ensures m.Some? ==> exists p :: CodeMatchAt(url, p, m.value)
    ensures forall p, code :: CodeMatchAt(url, p, code) ==> m == Some(code)
  {
    var body := if |url| > 0 && url[|url| - 1] == '/' then url[..|url| - 1] else url;
    var n := TrailingCodeChars(body);
    var m := if 1 <= n < |body| && body[|body| - 1 - n] == '/' then Some(body[|body| - n..]) else None;
    assert m.Some? ==> CodeMatchAt(url, |body| - 1 - n, m.value) by {
      if m.Some? {
        var p := |body| - 1 - n;
        assert url[p + 1..] == body[p + 1..] + url[|body|..];
      }
    }
    forall p, code | CodeMatchAt(url, p, code) ensures m == Some(code) {
      assert body[p + 1..] == code;
      assert body[p] == '/';
    }
    m
  }

  /** The job code: the captured group, or `flipbook` when the expression does not match. */
  function JobCode(url: string): (code: string)
    ensures |code| >= 1 && forall k :: 0 <= k < |code| ==> IsCodeChar(code[k])
  {
    CodeMatch(url).GetOr("flipbook")
  }

  /** The job code of `.../<segment>` and `.../<segment>/` is `<segment>` when the segment is all code characters. */
  lemma JobCodeOfFinalSegment(prefix: string, segment: string, slash: bool)
    requires |segment| >= 1 && forall k :: 0 <= k < |segment| ==> IsCodeChar(segment[k])
    ensures JobCode(prefix + "/" + segment + (if slash then "/" else "")) == segment
  {
    var url := prefix + "/" + segment + (if slash then "/" else "");
    assert url[|prefix| + 1..] == segment + (if slash then "/" else "");
    assert CodeMatchAt(url, |prefix|, segment);
  }

  /** The example from the script's comment: `.../sxzzv/alas/` gives `alas`. */
  lemma JobCodeExample()
    ensures JobCode("https://online.fliphtml5.com/sxzzv/alas/") == "alas"
  {
    var prefix, segment := "https://online.fliphtml5.com/sxzzv", "alas";
    assert forall k :: 0 <= k < |segment| ==> IsCodeChar(segment[k]);
    JobCodeOfFinalSegment(prefix, segment, true);
    assert prefix + "/" + segment + "/" == "https://online.fliphtml5.com/sxzzv/alas/";
  }

  /** The expression fails exactly when no position matches, and then the job code is `flipbook`. */
  lemma JobCodeFallback(url: string)
    ensures CodeMatch(url).None? <==> forall p, code :: !CodeMatchAt(url, p, code)
    ensures (forall p, code :: !CodeMatchAt(url, p, code)) ==> JobCode(url) == "flipbook"
  {
    if CodeMatch(url).Some? {
      var p :| CodeMatchAt(url, p, CodeMatch(url).value);
    }
  }

  /** For instance a URL ending in `-` falls back to `flipbook`. */
  lemma JobCodeDashEnd(url: string)
    requires |url| >= 1 && url[|url| - 1] == '-'
    ensures JobCode(url) == "flipbook"
  {
    JobCodeFallback(url);
  }

  // ---------------------------------------------------------------------------
  // The `requestfinished` recorder and the set it fills

  /** What the listener stores for a finished request, if anything: the URL before its first `?`, when it mentions `.webp`. */
  function StoredForm(reqUrl: string): (stored: Option<string>)
    ensures stored.Some? ==> '?' !in stored.value && StartsWith(reqUrl, stored.value)
    ensures stored.Some? <==> Contains(reqUrl, WebpMarker)
  {
    if Contains(reqUrl, WebpMarker) then Some(Before(reqUrl, '?')) else None
  }

  /** The Set's elements after the listener has seen `requests` in order. */
  function Recorded(requests: seq<string>): (urls: seq<string>)
    ensures Distinct(urls)
  {
    if requests == [] then []
    else
      var prev := Recorded(requests[..|requests| - 1]);
      match StoredForm(requests[|requests| - 1])
      case Some(u) => SetAdd(prev, u)
      case None => prev
  }

  /** The recorded URLs are exactly the stored forms of the `.webp` requests, and none holds a `?`. */
  lemma RecordedSpec(requests: seq<string>)
    ensures forall u :: u in Recorded(requests) <==>
      exists i :: 0 <= i < |requests| && StoredForm(requests[i]) == Some(u)
    ensures forall u :: u in Recorded(requests) ==> '?' !in u
  {
    forall u ensures u in Recorded(requests) <==> exists i :: 0 <= i < |requests| && StoredForm(requests[i]) == Some(u) {
      RecordedMember(requests, u);
    }
    forall u | u in Recorded(requests) ensures '?' !in u {
      RecordedMember(requests, u);
      var i :| 0 <= i < |requests| && StoredForm(requests[i]) == Some(u);
    }
  }

  /** A URL is recorded exactly when some request's stored form is that URL. */
  lemma {:induction false} RecordedMember(requests: seq<string>, u: string)
    ensures u in Recorded(requests) <==> exists i :: 0 <= i < |requests| && StoredForm(requests[i]) == Some(u)
  {
    if requests != [] {
      var n := |requests| - 1;
      var prev := requests[..n];
      RecordedMember(prev, u);
      RecordedStep(requests);
      if u in Recorded(prev) {
        var i :| 0 <= i < n && StoredForm(prev[i]) == Some(u);
        assert prev[i] == requests[i];
      } else if StoredForm(requests[n]) != Some(u) {
        forall i | 0 <= i < |requests| ensures StoredForm(requests[i]) != Some(u) {
          if i < n {
            assert prev[i] == requests[i];
          }
        }
      }
    }
  }

  /** One more request adds its stored form, if it has one, to the recorded URLs. */
  lemma RecordedStep(requests: seq<string>)
    requires requests != []
    ensures var n := |requests| - 1;
      forall u :: u in Recorded(requests) <==> u in Recorded(requests[..n]) || StoredForm(requests[n]) == Some(u)
  {
  }

  /** A request that differs from an earlier `.webp` request only after the `?` adds no entry. */
  lemma QueryVariantCollapses(requests: seq<string>, path: string, query: string, otherQuery: string)
    requires '?' !in path
    requires path + "?" + query in requests
    requires Contains(path + "?" + query, WebpMarker)
    ensures Recorded(requests + [path + "?" + otherQuery]) == Recorded(requests)
  {
    RecordedSpec(requests);
    var i :| 0 <= i < |requests| && requests[i] == path + "?" + query;
    BeforeOfExtension(path, '?', query, otherQuery);
    assert StoredForm(requests[i]) == Some(path);
    assert path in Recorded(requests);
    assert (requests + [path + "?" + otherQuery])[..|requests|] == requests;
  }

  /**
   * The Set the `requestfinished` listener fills: the URLs of finished
   * requests that mention `.webp`, cut at the first `?`, each kept once in the
   * order first seen.
   */
  class WebpRecorder {
    var urls: seq<string>

    ghost predicate Valid()
      reads this
    {
      Distinct(urls) && forall k :: 0 <= k < |urls| ==> '?' !in urls[k]
    }

    constructor ()
      ensures Valid() && urls == []
    {
      urls := [];
    }

    /** The listener body, run once per finished request. */
    method OnRequestFinished(reqUrl: string)
      requires Valid()
      modifies this
      ensures Valid()
      ensures urls == match StoredForm(reqUrl)
        case Some(u) => SetAdd(old(urls), u)
        case None => old(urls)
    {
      if Contains(reqUrl, WebpMarker) {
        var stripped := Before(reqUrl, '?');
        if stripped !in urls {
          urls := urls + [stripped];
        }
      }
    }
  }

  /**
   * The page's listener at work: a fresh Set, then one `requestfinished`
   * event per finished request, in order. The Set ends up holding `Recorded`.
   */
  method RecordRequests(requests: seq<string>) returns (webpUrls: seq<string>)
    ensures webpUrls == Recorded(requests)
  {
    var recorder := new WebpRecorder();
    for i := 0 to |requests|
      invariant recorder.Valid()
      invariant recorder.urls == Recorded(requests[..i])
    {
      assert requests[..i + 1][..i] == requests[..i];
      recorder.OnRequestFinished(requests[i]);
    }
    assert requests[..|requests|] == requests;
    webpUrls := recorder.urls;
  }

  // ---------------------------------------------------------------------------
  // The page sequence: `Array.from(webpUrls).filter(u => !u.includes('/thumb/')).sort()`

  predicate IsThumb(u: string) {
    Contains(u, ThumbMarker)
  }

  /** The URLs that are not thumbnails, in their original order. */
  function WithoutThumbs(urls: seq<string>): (r: seq<string>)
    ensures forall k :: 0 <= k < |r| ==> !IsThumb(r[k])
    ensures forall u :: u in r <==> u in urls && !IsThumb(u)
    ensures multiset(r) <= multiset(urls)
    ensures |r| <= |urls|
  {
    if urls == [] then []
    else
      assert urls == [urls[0]] + urls[1..];
      (if IsThumb(urls[0]) then [] else [urls[0]]) + WithoutThumbs(urls[1..])
  }

  /** The page sequence built from the recorded asset URLs. */
  function PageSequence(assets: seq<string>): (pages: seq<string>)
    ensures Sorted(pages)
    ensures multiset(pages) <= multiset(assets) && |pages| <= |assets|
  {
    Sort(WithoutThumbs(assets))
  }

  /**
   * The page sequence holds no thumbnail, is in ascending order, contains
   * exactly the recorded URLs that are not thumbnails, is no longer than the
   * recorded list, and, as the recorded URLs are distinct, repeats nothing.
   */
  lemma PageSequenceSpec(assets: seq<string>)
    ensures var pages := PageSequence(assets);
      && (forall k :: 0 <= k < |pages| ==> !IsThumb(pages[k]))
      && Sorted(pages)
      && (forall u :: u in pages <==> u in assets && !IsThumb(u))
      && |pages| <= |assets|
      && (Distinct(assets) ==> StrictlySorted(pages))
  {
    var kept := WithoutThumbs(assets);
    SortKeepsElements(kept);
    if Distinct(assets) {
      SubMultisetDistinct(assets, kept);
      SortDistinct(kept);
    }
  }

  /**
   * The page sequence a job builds from its finished requests: strictly
   * ascending, so free of duplicates; free of thumbnails and of `?`; and made
   * only of recorded URLs.
   */
  lemma PageSequenceOfRecorded(requests: seq<string>)
    ensures var pages := PageSequence(Recorded(requests));
      && StrictlySorted(pages)
      && (forall k :: 0 <= k < |pages| ==> !IsThumb(pages[k]) && '?' !in pages[k])
      && (forall u :: u in pages ==> u in Recorded(requests))
  {
    PageSequenceSpec(Recorded(requests));
    RecordedSpec(requests);
  }

  /** The page sequence holds exactly the recorded URLs that are not thumbnails. */
  lemma PageSequenceMembers(assets: seq<string>)
    ensures forall u :: u in PageSequence(assets) <==> u in assets && !IsThumb(u)
  {
    SortKeepsElements(WithoutThumbs(assets));
  }

  /** A sequence whose elements form a sub-multiset of a duplicate-free one is duplicate-free. */
  lemma SubMultisetDistinct(big: seq<string>, small: seq<string>)
    requires Distinct(big)
    requires multiset(small) <= multiset(big)
    ensures Distinct(small)
  {
    forall i, j | 0 <= i < j < |small| ensures small[i] != small[j] {
      if small[i] == small[j] {
        TwoOccurrences(small, i, j);
        DistinctCount(big, small[i]);
      }
    }
  }

  /** A sequence with no thumbnail is left as it is by the thumbnail filter. */
  lemma {:induction false} WithoutThumbsOfClean(urls: seq<string>)
    requires forall k :: 0 <= k < |urls| ==> !IsThumb(urls[k])
    ensures WithoutThumbs(urls) == urls
  {
    if urls != [] {
      WithoutThumbsOfClean(urls[1..]);
      assert urls == [urls[0]] + urls[1..];
    }
  }

  /** Filtering and sorting again changes nothing. */
  lemma PageSequenceIdempotent(assets: seq<string>)
    ensures PageSequence(PageSequence(assets)) == PageSequence(assets)
  {
    var pages := PageSequence(assets);
    PageSequenceSpec(assets);
    WithoutThumbsOfClean(pages);
    SortOfSorted(pages);
  }

  /** The order in which the Set received its elements does not affect the page sequence. */
  lemma PageSequenceIgnoresOrder(a: seq<string>, b: seq<string>)
    requires multiset(a) == multiset(b)
    ensures PageSequence(a) == PageSequence(b)
  {
    WithoutThumbsPermutation(a, b);
    SortedPermutationUnique(PageSequence(a), PageSequence(b));
  }

  /** Filtering commutes with permuting, as far as the elements are concerned. */
  lemma {:induction false} WithoutThumbsPermutation(a: seq<string>, b: seq<string>)
    requires multiset(a) == multiset(b)
    ensures multiset(WithoutThumbs(a)) == multiset(WithoutThumbs(b))
  {
    forall u ensures multiset(WithoutThumbs(a))[u] == multiset(WithoutThumbs(b))[u] {
      FilteredCount(a, u);
      FilteredCount(b, u);
    }
  }

  /** How often the thumbnail filter keeps a value. */
  lemma {:induction false} FilteredCount(urls: seq<string>, u: string)
    ensures multiset(WithoutThumbs(urls))[u] == if IsThumb(u) then 0 else multiset(urls)[u]
  {
    if urls != [] {
      var x, rest := urls[0], urls[1..];
      var w := WithoutThumbs(rest);
      FilteredCount(rest, u);
      assert urls == [x] + rest;
      CountCons(x, rest, u);
      if IsThumb(x) {
        assert WithoutThumbs(urls) == w;
        assert x == u ==> IsThumb(u);
      } else {
        assert WithoutThumbs(urls) == [x] + w;
        CountCons(x, w, u);
        assert x == u ==> !IsThumb(u);
      }
    }
  }

  /** Putting `x` in front adds one occurrence of `x`. */
  lemma CountCons(x: string, s: seq<string>, u: string)
    ensures multiset([x] + s)[u] == (if x == u then 1 else 0) + multiset(s)[u]
  {
    assert multiset([x] + s) == multiset{x} + multiset(s);
  }

  // ---------------------------------------------------------------------------
  // Page files

  /** The working directory of a job. */
  function TempDir(code: string): string {
    OutputDir + "/" + code + "_webp"
  }

  /** The PDF a job writes. */
  function PdfPath(code: string): string {
    OutputDir + "/" + code + ".pdf"
  }

  /** `page-${String(i + 1).padStart(3, '0')}.webp` inside the working directory. */
  function PageFileName(dir: string, i: nat): (name: string)
    ensures StartsWith(name, dir + "/page-") && name[|name| - 5..] == ".webp"
    ensures i + 1 < 1000 ==> |name| == |dir| + 14
  {
    NatToStringLength(i + 1);
    dir + "/page-" + PadStart(NatToString(i + 1), 3, '0') + ".webp"
  }

  /**
   * Below page 1000 the page number has exactly three digits; at any index
   * the digits denote `i + 1`, so two indices never share a file name.
   */
  lemma PageFileNameSpec(dir: string, i: nat, j: nat)
    ensures i + 1 < 1000 ==> |PadStart(NatToString(i + 1), 3, '0')| == 3
    ensures i != j ==> PageFileName(dir, i) != PageFileName(dir, j)
  {
    NatToStringLength(i + 1);
    if PageFileName(dir, i) == PageFileName(dir, j) {
      var a, b := PadStart(NatToString(i + 1), 3, '0'), PadStart(NatToString(j + 1), 3, '0');
      ConcatCancel(dir + "/page-", a, b, ".webp");
      PaddedNumeralValue(i + 1, 3);
      PaddedNumeralValue(j + 1, 3);
    }
  }

  /** The first page file of a job: `page-001.webp`. */
  lemma FirstPageFileName(dir: string)
    ensures PageFileName(dir, 0) == dir + "/page-001.webp"
  {
    assert NatToString(1) == "1";
    assert PadStart("1", 3, '0') == "001";
  }

  // ---------------------------------------------------------------------------
  // The download loop

  /** What one `axios.get` followed by `fs.writeFile` of the page file produced. */
  datatype Fetch = Fetched(data: Bytes) | FetchFailed(message: string)

  /** The buffers the loop pushes: the successful downloads, in page order. */
  function Downloaded(pages: seq<string>, fetch: string -> Fetch): (buffers: seq<Bytes>)
    ensures |buffers| <= |pages|
  {
    if pages == [] then []
    else
      var prev := Downloaded(pages[..|pages| - 1], fetch);
      match fetch(pages[|pages| - 1])
      case Fetched(data) => prev + [data]
      case FetchFailed(_) => prev
  }

  /** The page files written: for each successful download, its page-numbered name and data. */
  function PageFiles(dir: string, pages: seq<string>, fetch: string -> Fetch): (files: seq<(string, Bytes)>)
    ensures |files| == |Downloaded(pages, fetch)|
    ensures forall k :: 0 <= k < |files| ==> files[k].1 == Downloaded(pages, fetch)[k]
  {
    if pages == [] then []
    else
      var n := |pages| - 1;
      var prev := PageFiles(dir, pages[..n], fetch);
      match fetch(pages[n])
      case Fetched(data) => prev + [(PageFileName(dir, n), data)]
      case FetchFailed(_) => prev
  }

  /** Nothing is downloaded exactly when every download fails; everything is downloaded exactly when none does. */
  lemma {:induction false} DownloadedCount(pages: seq<string>, fetch: string -> Fetch)
    ensures |Downloaded(pages, fetch)| == 0 <==> forall k :: 0 <= k < |pages| ==> fetch(pages[k]).FetchFailed?
    ensures |Downloaded(pages, fetch)| == |pages| <==> forall k :: 0 <= k < |pages| ==> fetch(pages[k]).Fetched?
  {
    if pages != [] {
      var n := |pages| - 1;
      DownloadedCount(pages[..n], fetch);
      assert forall k :: 0 <= k < n ==> pages[..n][k] == pages[k];
    }
  }

  /** The positions in the page sequence of the successful downloads, in order. */
  ghost function FetchedPositions(pages: seq<string>, fetch: string -> Fetch): (ix: seq<nat>)
    ensures |ix| == |Downloaded(pages, fetch)|
    ensures forall k :: 0 <= k < |ix| ==> ix[k] < |pages| && fetch(pages[ix[k]]).Fetched?
    ensures forall k, l :: 0 <= k < l < |ix| ==> ix[k] < ix[l]
  {
    if pages == [] then []
    else
      var n := |pages| - 1;
      var prev := FetchedPositions(pages[..n], fetch);
      assert forall k :: 0 <= k < |prev| ==> pages[..n][prev[k]] == pages[prev[k]];
      prev + (if fetch(pages[n]).Fetched? then [n] else [])
  }

  /**
   * The buffers are exactly the successful downloads in page order: the
   * `k`-th buffer is the data fetched for the `k`-th recorded position, and
   * every page whose download succeeds has its position recorded.
   */
  lemma {:induction false} DownloadedPositions(pages: seq<string>, fetch: string -> Fetch)
    ensures forall k :: 0 <= k < |Downloaded(pages, fetch)| ==>
      Downloaded(pages, fetch)[k] == fetch(pages[FetchedPositions(pages, fetch)[k]]).data
    ensures forall i :: 0 <= i < |pages| && fetch(pages[i]).Fetched? ==> i in FetchedPositions(pages, fetch)
  {
    DownloadedData(pages, fetch);
    forall i | 0 <= i < |pages| && fetch(pages[i]).Fetched?
      ensures i in FetchedPositions(pages, fetch)
    {
      FetchedPosition(pages, fetch, i);
    }
  }

  /** The `k`-th buffer holds the data of the `k`-th recorded position. */
  lemma {:induction false} DownloadedData(pages: seq<string>, fetch: string -> Fetch)
    ensures forall k :: 0 <= k < |Downloaded(pages, fetch)| ==>
      Downloaded(pages, fetch)[k] == fetch(pages[FetchedPositions(pages, fetch)[k]]).data
  {
    if pages != [] {
      var n := |pages| - 1;
      DownloadedData(pages[..n], fetch);
      var prev := FetchedPositions(pages[..n], fetch);
      assert forall k :: 0 <= k < |prev| ==> pages[..n][prev[k]] == pages[prev[k]];
    }
  }

  /** A page whose download succeeds has its position recorded. */
  lemma {:induction false} FetchedPosition(pages: seq<string>, fetch: string -> Fetch, i: nat)
    requires i < |pages| && fetch(pages[i]).Fetched?
    ensures i in FetchedPositions(pages, fetch)
  {
    var n := |pages| - 1;
    if i < n {
      assert pages[..n][i] == pages[i];
      FetchedPosition(pages[..n], fetch, i);
    }
  }

  /** The `k`-th page file is named after the position of the `k`-th successful download. */
  lemma {:induction false} PageFilesNames(dir: string, pages: seq<string>, fetch: string -> Fetch)
    ensures |PageFiles(dir, pages, fetch)| == |FetchedPositions(pages, fetch)|
    ensures forall k :: 0 <= k < |PageFiles(dir, pages, fetch)| ==>
      PageFiles(dir, pages, fetch)[k].0 == PageFileName(dir, FetchedPositions(pages, fetch)[k])
  {
    if pages != [] {
      var n := |pages| - 1;
      PageFilesNames(dir, pages[..n], fetch);
      var prev, files := PageFiles(dir, pages[..n], fetch), PageFiles(dir, pages, fetch);
      var ix, ixPrev := FetchedPositions(pages, fetch), FetchedPositions(pages[..n], fetch);
      forall k | 0 <= k < |files| ensures files[k].0 == PageFileName(dir, ix[k]) {
        if k < |prev| {
          assert files[k] == prev[k] && ix[k] == ixPrev[k];
        }
      }
    }
  }

  /** No two page files of a job share a name. */
  lemma PageFilesDistinct(dir: string, pages: seq<string>, fetch: string -> Fetch)
    ensures forall k, l :: 0 <= k < l < |PageFiles(dir, pages, fetch)| ==>
      PageFiles(dir, pages, fetch)[k].0 != PageFiles(dir, pages, fetch)[l].0
  {
    PageFilesNames(dir, pages, fetch);
    var ix := FetchedPositions(pages, fetch);
    forall k, l | 0 <= k < l < |PageFiles(dir, pages, fetch)|
      ensures PageFiles(dir, pages, fetch)[k].0 != PageFiles(dir, pages, fetch)[l].0
    {
      PageFileNameSpec(dir, ix[k], ix[l]);
    }
  }

  /**
   * The `for` loop over the page sequence: download each page, write it to
   * its page file and keep its buffer; a failed download is skipped.
   */
  method DownloadPages(dir: string, pages: seq<string>, fetch: string -> Fetch)
    returns (imageBuffers: seq<Bytes>, downloadSuccess: nat, files: seq<(string, Bytes)>)
    ensures imageBuffers == Downloaded(pages, fetch)
    ensures downloadSuccess == |imageBuffers| <= |pages|
    ensures files == PageFiles(dir, pages, fetch)
  {
    imageBuffers, downloadSuccess, files := [], 0, [];
    for i := 0 to |pages|
      invariant imageBuffers == Downloaded(pages[..i], fetch)
      invariant files == PageFiles(dir, pages[..i], fetch)
      invariant downloadSuccess == |imageBuffers|
    {
      assert pages[..i + 1][..i] == pages[..i];
      var imgUrl := pages[i];
      var filename := PageFileName(dir, i);
      match fetch(imgUrl)
      case Fetched(data) =>
        files := files + [(filename, data)];
        imageBuffers := imageBuffers + [data];
        downloadSuccess := downloadSuccess + 1;
      case FetchFailed(_) =>
    }
    assert pages[..|pages|] == pages;
  }

  // ---------------------------------------------------------------------------
  // PDF assembly

  /** The images that make it into the PDF: those the converter and embedder accept, in order. */
  function Embedded(buffers: seq<Bytes>, embeds: Bytes -> bool): (pdfPages: seq<Bytes>)
    ensures |pdfPages| <= |buffers|
    ensures multiset(pdfPages) <= multiset(buffers)
  {
    if buffers == [] then []
    else
      var n := |buffers| - 1;
      assert buffers == buffers[..n] + [buffers[n]];
      Embedded(buffers[..n], embeds) + (if embeds(buffers[n]) then [buffers[n]] else [])
  }

  /** One image reaches the PDF exactly when it converts and embeds. */
  lemma EmbeddedOne(x: Bytes, embeds: Bytes -> bool)
    ensures Embedded([x], embeds) == if embeds(x) then [x] else []
  {
    assert [x][..0] == [];
  }

  /**
   * The images of two runs reach the PDF independently and in order, so with
   * `EmbeddedOne` the PDF is exactly the images that embed, in page order,
   * however many of the others fail.
   */
  lemma {:induction false} EmbeddedAppend(a: seq<Bytes>, b: seq<Bytes>, embeds: Bytes -> bool)
    ensures Embedded(a + b, embeds) == Embedded(a, embeds) + Embedded(b, embeds)
    decreases |b|
  {
    if b == [] {
      assert a + b == a;
    } else {
      var n := |b| - 1;
      var ab, init, last := a + b, b[..n], b[n];
      var added := if embeds(last) then [last] else [];
      assert ab[..|ab| - 1] == a + init && ab[|ab| - 1] == last;
      assert Embedded(ab, embeds) == Embedded(a + init, embeds) + added;
      assert Embedded(b, embeds) == Embedded(init, embeds) + added;
      EmbeddedAppend(a, init, embeds);
    }
  }

  /** Every image is embedded exactly when none of them fails. */
  lemma EmbeddedAll(buffers: seq<Bytes>, embeds: Bytes -> bool)
    ensures |Embedded(buffers, embeds)| == |buffers| <==> forall k :: 0 <= k < |buffers| ==> embeds(buffers[k])
  {
    if forall k :: 0 <= k < |buffers| ==> embeds(buffers[k]) {
      EmbeddedKeepsAll(buffers, embeds);
    } else {
      var k :| 0 <= k < |buffers| && !embeds(buffers[k]);
      EmbeddedDropsFailure(buffers, embeds, k);
    }
  }

  /** When every image embeds, every image reaches the PDF. */
  lemma {:induction false} EmbeddedKeepsAll(buffers: seq<Bytes>, embeds: Bytes -> bool)
    requires forall k :: 0 <= k < |buffers| ==> embeds(buffers[k])
    ensures |Embedded(buffers, embeds)| == |buffers|
  {
    if buffers != [] {
      var n := |buffers| - 1;
      assert forall k :: 0 <= k < n ==> buffers[..n][k] == buffers[k];
      EmbeddedKeepsAll(buffers[..n], embeds);
    }
  }

  /** An image that fails to embed leaves the PDF short of a page. */
  lemma {:induction false} EmbeddedDropsFailure(buffers: seq<Bytes>, embeds: Bytes -> bool, k: nat)
    requires k < |buffers| && !embeds(buffers[k])
    ensures |Embedded(buffers, embeds)| < |buffers|
  {
    var n := |buffers| - 1;
    var prev := Embedded(buffers[..n], embeds);
    assert |Embedded(buffers, embeds)| == |prev| + (if embeds(buffers[n]) then 1 else 0);
    if k < n {
      assert buffers[..n][k] == buffers[k];
      EmbeddedDropsFailure(buffers[..n], embeds, k);
    }
  }

  /** The loop over `imageBuffers.entries()`: add one page per image, skipping an image that fails. */
  method AssemblePdf(imageBuffers: seq<Bytes>, embeds: Bytes -> bool) returns (pdfPages: seq<Bytes>)
    ensures pdfPages == Embedded(imageBuffers, embeds)
  {
    pdfPages := [];
    for idx := 0 to |imageBuffers|
      invariant pdfPages == Embedded(imageBuffers[..idx], embeds)
    {
      assert imageBuffers[..idx + 1][..idx] == imageBuffers[..idx];
      if embeds(imageBuffers[idx]) {
        pdfPages := pdfPages + [imageBuffers[idx]];
      }
    }
    assert imageBuffers[..|imageBuffers|] == imageBuffers;
  }

  // ---------------------------------------------------------------------------
  // One job: `downloadFlipbookAsPdf`

  /**
   * What the collaborators of one job produce: the error `launch` or `goto`
   * raised, if any; the URLs of the requests the page finished, in order; the
   * outcome of downloading each URL; and whether each image converts and embeds.
   */
  datatype JobEnv = JobEnv(
    navigationError: Option<string>,
    requests: seq<string>,
    fetch: string -> Fetch,
    embeds: Bytes -> bool)

  /** How a job ends: the PDF written with its logged and actual page counts, or the error caught. */
  datatype JobResult =
    | Succeeded(pdf: string, pages: nat, pdfPages: nat)
    | Failed(message: string)

  /** The ladder of checks a job goes through, as a function of what its collaborators produced. */
  function JobOutcome(code: string, env: JobEnv): (r: JobResult)
    ensures env.navigationError.Some? ==> r == Failed(env.navigationError.value)
    ensures env.navigationError.None? && r.Failed? ==>
      r.message == NoWebpMessage || r.message == NoPagesMessage || r.message == NoDownloadsMessage
    ensures r.Succeeded? ==> r.pdf == PdfPath(code) && 1 <= r.pages && r.pdfPages <= r.pages
  {
    if env.navigationError.Some? then Failed(env.navigationError.value)
    else
      var assets := Recorded(env.requests);
      if |assets| == 0 then Failed(NoWebpMessage)
      else
        var pages := PageSequence(assets);
        if |pages| == 0 then Failed(NoPagesMessage)
        else
          var buffers := Downloaded(pages, env.fetch);
          if |buffers| == 0 then Failed(NoDownloadsMessage)
          else Succeeded(PdfPath(code), |buffers|, |Embedded(buffers, env.embeds)|)
  }

  /** The line appended to the success log. */
  function SuccessLine(url: string, pdf: string, pages: nat): (line: string)
    ensures StartsWith(line, url + " -> " + pdf + " (") && line[|line| - 1] == '\n'
    ensures '\n' !in url && '\n' !in pdf ==> '\n' !in line[..|line| - 1]
  {
    var digits := NatToString(pages);
    assert '\n' !in digits by {
      assert forall k :: 0 <= k < |digits| ==> IsDigit(digits[k]);
    }
    var line := url + " -> " + pdf + " (" + digits + " pages)\n";
    assert line[..|line| - 1] == url + " -> " + pdf + " (" + digits + " pages)";
    line
  }

  /** The line appended to the failure log. */
  function FailLine(url: string, message: string): (line: string)
    ensures StartsWith(line, url + " -> ") && line[|line| - 1] == '\n'
    ensures '\n' !in url && '\n' !in message ==> '\n' !in line[..|line| - 1]
  {
    var line := url + " -> " + message + "\n";
    assert line[..|line| - 1] == url + " -> " + message;
    line
  }

  /** What a job appends to the success log: one line if it succeeded. */
  function SuccessLines(url: string, result: JobResult): seq<string> {
    match result
    case Succeeded(pdf, pages, _) => [SuccessLine(url, pdf, pages)]
    case Failed(_) => []
  }

  /** What a job appends to the failure log: one line if it failed. */
  function FailLines(url: string, result: JobResult): seq<string> {
    match result
    case Succeeded(_, _, _) => []
    case Failed(message) => [FailLine(url, message)]
  }

  /** The error ladder: which message a job fails with. */
  lemma JobOutcomeLadder(code: string, env: JobEnv)
    ensures var r, assets := JobOutcome(code, env), Recorded(env.requests);
      && (env.navigationError.None? && |assets| == 0 ==> r == Failed(NoWebpMessage))
      && (env.navigationError.None? && |assets| > 0 && (forall u :: u in assets ==> IsThumb(u)) ==> r == Failed(NoPagesMessage))
      && ((env.navigationError.None? && |PageSequence(assets)| > 0 &&
           forall u :: u in PageSequence(assets) ==> env.fetch(u).FetchFailed?) ==> r == Failed(NoDownloadsMessage))
  {
    var assets := Recorded(env.requests);
    var pages := PageSequence(assets);
    if env.navigationError.None? && |assets| > 0 && |pages| > 0 {
      PageSequenceMembers(assets);
      assert pages[0] in assets && !IsThumb(pages[0]);
      if forall u :: u in pages ==> env.fetch(u).FetchFailed? {
        forall k | 0 <= k < |pages| ensures env.fetch(pages[k]).FetchFailed? {
          assert pages[k] in pages;
        }
        DownloadedCount(pages, env.fetch);
      }
    }
  }

  /** A job succeeds exactly when navigation succeeded and some page of the sequence downloaded. */
  lemma JobSucceeds(code: string, env: JobEnv)
    ensures JobOutcome(code, env).Succeeded? <==>
      env.navigationError.None? && exists u :: u in PageSequence(Recorded(env.requests)) && env.fetch(u).Fetched?
  {
    var assets := Recorded(env.requests);
    var pages := PageSequence(assets);
    if env.navigationError.None? && |assets| > 0 && |pages| > 0 {
      DownloadedSome(pages, env.fetch);
      assert JobOutcome(code, env).Succeeded? <==> |Downloaded(pages, env.fetch)| > 0;
    } else if env.navigationError.None? && |assets| == 0 {
      assert pages == [];
    }
  }

  /** Some buffer is pushed exactly when some page URL downloads. */
  lemma DownloadedSome(pages: seq<string>, fetch: string -> Fetch)
    ensures |Downloaded(pages, fetch)| > 0 <==> exists u :: u in pages && fetch(u).Fetched?
  {
    DownloadedCount(pages, fetch);
    if exists u :: u in pages && fetch(u).Fetched? {
      var u :| u in pages && fetch(u).Fetched?;
      var k :| 0 <= k < |pages| && pages[k] == u;
      assert !fetch(pages[k]).FetchFailed?;
    } else {
      forall k | 0 <= k < |pages| ensures fetch(pages[k]).FetchFailed? {
        assert pages[k] in pages;
      }
    }
  }

  /**
   * A successful job logs the number of downloaded images, which is at least
   * one and at most the length of the page sequence; the PDF has no more pages
   * than that, and exactly that many when every image embeds.
   */
  lemma JobOutcomeCounts(code: string, env: JobEnv)
    requires JobOutcome(code, env).Succeeded?
    ensures var r := JobOutcome(code, env);
      && r.pdf == PdfPath(code)
      && 1 <= r.pages <= |PageSequence(Recorded(env.requests))|
      && r.pages == |Downloaded(PageSequence(Recorded(env.requests)), env.fetch)|
      && r.pdfPages <= r.pages
      && (r.pdfPages == r.pages <==> forall b :: b in Downloaded(PageSequence(Recorded(env.requests)), env.fetch) ==> env.embeds(b))
  {
    var buffers := Downloaded(PageSequence(Recorded(env.requests)), env.fetch);
    EmbeddedAll(buffers, env.embeds);
  }

  /** What one job leaves behind besides its log line. */
  datatype JobEffects = JobEffects(
    successLines: seq<string>,
    failLines: seq<string>,
    pdf: Option<seq<Bytes>>,
    pageFiles: seq<(string, Bytes)>,
    tempDirKept: bool)

  /**
   * `downloadFlipbookAsPdf(url, code)`. The working directory is created
   * first; the recorder is fed the finished requests; then the checks of the
   * ladder run in order, and the first that fails ends the job with one
   * failure-log line. A successful job writes the PDF, appends one
   * success-log line and removes the working directory.
   */
  method DownloadFlipbookAsPdf(url: string, code: string, env: JobEnv)
    returns (result: JobResult, effects: JobEffects)
    ensures result == JobOutcome(code, env)
    ensures effects.successLines == SuccessLines(url, result)
    ensures effects.failLines == FailLines(url, result)
    ensures result.Succeeded? ==> effects.pdf.Some? && |effects.pdf.value| == result.pdfPages && !effects.tempDirKept
    ensures result.Succeeded? ==>
      effects.pdf == Some(Embedded(Downloaded(PageSequence(Recorded(env.requests)), env.fetch), env.embeds))
    ensures result.Failed? ==> effects.pdf.None? && effects.tempDirKept
    ensures effects.pageFiles ==
      if env.navigationError.Some? then []
      else PageFiles(TempDir(code), PageSequence(Recorded(env.requests)), env.fetch)
  {
    var tempDir := TempDir(code);
    var outPdf := PdfPath(code);
    effects := JobEffects([], [], None, [], true);
    if env.navigationError.Some? {
      result := Failed(env.navigationError.value);
    } else {
      var webpUrls := RecordRequests(env.requests);
      if |webpUrls| == 0 {
        result := Failed(NoWebpMessage);
      } else {
        var filteredUrls := Sort(WithoutThumbs(webpUrls));
        assert filteredUrls == PageSequence(Recorded(env.requests));
        if |filteredUrls| == 0 {
          result := Failed(NoPagesMessage);
        } else {
          var imageBuffers, downloadSuccess, files := DownloadPages(tempDir, filteredUrls, env.fetch);
          effects := effects.(pageFiles := files);
          if |imageBuffers| == 0 {
            result := Failed(NoDownloadsMessage);
          } else {
            var pdfPages := AssemblePdf(imageBuffers, env.embeds);
            result := Succeeded(outPdf, |imageBuffers|, |pdfPages|);
            effects := effects.(
              successLines := [SuccessLine(url, outPdf, |imageBuffers|)],
              pdf := Some(pdfPages),
              tempDirKept := false);
          }
        }
      }
    }
    if result.Failed? {
      effects := effects.(failLines := [FailLine(url, result.message)]);
    }
  }

  // ---------------------------------------------------------------------------
  // The whole run: `main`

  /** The success-log lines of a run, in input order. */
  function SuccessLog(urls: seq<string>, results: seq<JobResult>): (log: seq<string>)
    requires |results| == |urls|
    ensures |log| <= |urls|
  {
    if urls == [] then []
    else
      var n := |urls| - 1;
      SuccessLog(urls[..n], results[..n]) + SuccessLines(urls[n], results[n])
  }

  /** The failure-log lines of a run, in input order. */
  function FailLog(urls: seq<string>, results: seq<JobResult>): (log: seq<string>)
    requires |results| == |urls|
    ensures |log| <= |urls|
  {
    if urls == [] then []
    else
      var n := |urls| - 1;
      FailLog(urls[..n], results[..n]) + FailLines(urls[n], results[n])
  }

  /** Every URL of a run leaves exactly one log line, in one log or the other. */
  lemma {:induction false} OneLinePerUrl(urls: seq<string>, results: seq<JobResult>)
    requires |results| == |urls|
    ensures |SuccessLog(urls, results)| + |FailLog(urls, results)| == |urls|
  {
    if urls != [] {
      var n := |urls| - 1;
      OneLinePerUrl(urls[..n], results[..n]);
    }
  }

  /** The results of running the jobs for `urls` one after the other. */
  function Outcomes(urls: seq<string>, envs: seq<JobEnv>): (results: seq<JobResult>)
    requires |envs| == |urls|
  {
    MapPairs(urls, envs, (url, env) => JobOutcome(JobCode(url), env))
  }

  /** One more result extends each log by that result's line. */
  lemma LogsSnoc(urls: seq<string>, results: seq<JobResult>, url: string, result: JobResult)
    requires |results| == |urls|
    ensures SuccessLog(urls + [url], results + [result]) == SuccessLog(urls, results) + SuccessLines(url, result)
    ensures FailLog(urls + [url], results + [result]) == FailLog(urls, results) + FailLines(url, result)
  {
    assert (urls + [url])[..|urls|] == urls && (results + [result])[..|urls|] == results;
  }

  /** One more job extends both logs by that job's lines. */
  lemma LogsStep(urls: seq<string>, i: nat, results: seq<JobResult>, result: JobResult)
    requires i < |urls| && |results| == i
    ensures SuccessLog(urls[..i + 1], results + [result]) == SuccessLog(urls[..i], results) + SuccessLines(urls[i], result)
    ensures FailLog(urls[..i + 1], results + [result]) == FailLog(urls[..i], results) + FailLines(urls[i], result)
  {
    var done, url := urls[..i], urls[i];
    assert urls[..i + 1] == done + [url];
    LogsSnoc(done, results, url, result);
  }

  /** The loop of `main`: one job per URL, in order, whatever the earlier jobs did. */
  method RunJobs(urls: seq<string>, envs: seq<JobEnv>)
    returns (results: seq<JobResult>, successLog: seq<string>, failLog: seq<string>)
    requires |envs| == |urls|
    ensures results == Outcomes(urls, envs)
    ensures successLog == SuccessLog(urls, results)
    ensures failLog == FailLog(urls, results)
  {
    results, successLog, failLog := [], [], [];
    for i := 0 to |urls|
      invariant results == Outcomes(urls[..i], envs[..i])
      invariant successLog == SuccessLog(urls[..i], results)
      invariant failLog == FailLog(urls[..i], results)
    {
      var url := urls[i];
      var result, effects := DownloadFlipbookAsPdf(url, JobCode(url), envs[i]);
      LogsStep(urls, i, results, result);
      MapPairsSnoc(urls, envs, (url, env) => JobOutcome(JobCode(url), env), i);
      results := results + [result];
      successLog := successLog + effects.successLines;
      failLog := failLog + effects.failLines;
    }
    assert urls[..|urls|] == urls && envs[..|envs|] == envs;
  }

  /**
   * `main`: run one job per fliphtml5 URL of the input file; `envs[i]` is
   * what the collaborators of job `i` produce. Every URL is attempted and
   * leaves exactly one log line.
   */
  method DownloadAll(text: string, envs: seq<JobEnv>)
    returns (results: seq<JobResult>, successLog: seq<string>, failLog: seq<string>)
    requires |envs| == |ParseFlipUrls(text)|
    ensures |results| == |ParseFlipUrls(text)|
    ensures forall i :: 0 <= i < |results| ==>
      results[i] == JobOutcome(JobCode(ParseFlipUrls(text)[i]), envs[i])
    ensures successLog == SuccessLog(ParseFlipUrls(text), results)
    ensures failLog == FailLog(ParseFlipUrls(text), results)
    ensures |successLog| + |failLog| == |ParseFlipUrls(text)|
  {
    var urls := ParseFlipUrls(text);
    results, successLog, failLog := RunJobs(urls, envs);
    forall i | 0 <= i < |results| ensures results[i] == JobOutcome(JobCode(urls[i]), envs[i]) {
      MapPairsAt(urls, envs, (url, env) => JobOutcome(JobCode(url), env), i);
    }
    OneLinePerUrl(urls, results);
  }
}
