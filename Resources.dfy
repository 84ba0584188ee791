/**
 * download_resources.js: download every http(s) URL listed in the input
 * file, except fliphtml5 viewer URLs, to `downloaded_resources/<host>/<path>`,
 * and append one line per URL to the success log or the failure log.
 *
 * The URL parser and the HTTP client are not modelled: `parse` gives the
 * host and pathname `new URL(url)` would produce (or nothing when it throws),
 * and `fetches[i]` says how downloading and saving the `i`-th listed URL ends.
 */
module Resources {
  import opened Wrappers
  import opened Text
  import opened Sequences

  const OutputDir := "downloaded_resources"
  const SkipPrefix := "https://online.fliphtml5.com/"
  const InvalidUrlMessage := "Invalid URL"

  // ---------------------------------------------------------------------------
  // Input file

  predicate IsHttpUrl(line: string) {
    StartsWith(line, "http://") || StartsWith(line, "https://")
  }

  /**
   * `parseUrlsFromFile`: the trimmed lines that start with `http://` or
   * `https://`, in file order (see `Text.SelectedPositions` for where each
   * one comes from).
   */
  method ParseUrls(text: string) returns (urls: seq<string>)
    ensures urls == SelectTrimmed(SplitLines(text), IsHttpUrl)
    ensures forall k :: 0 <= k < |urls| ==> IsHttpUrl(urls[k]) && Trim(urls[k]) == urls[k]
  {
    var lines := SplitLines(text);
    urls := [];
    for i := 0 to |lines|
      invariant urls == SelectTrimmed(lines[..i], IsHttpUrl)
    {
      SelectTrimmedPrefix(lines, i, IsHttpUrl);
      var trimmed := Trim(lines[i]);
      if StartsWith(trimmed, "http://") || StartsWith(trimmed, "https://") {
        urls := urls + [trimmed];
      }
    }
    assert lines[..|lines|] == lines;
    SelectTrimmedTrimmed(lines, IsHttpUrl);
  }

  // ---------------------------------------------------------------------------
  // Destination path: `path.join(OUTPUT_DIR, u.host, cleanPath || 'index')`

  /** The two-character string `//`. */
  predicate HasDoubleSlash(s: string) {
    exists k :: 0 <= k < |s| - 1 && s[k] == '/' && s[k + 1] == '/'
  }

  /** What `path.join` does to a path without `.` or `..` segments: every run of `/` becomes one `/`. */
  function CollapseSlashes(s: string): (r: string)
    ensures !HasDoubleSlash(r)
    ensures forall c :: c in r ==> c in s
    ensures !HasDoubleSlash(s) ==> r == s
    ensures |r| <= |s|
    ensures |s| > 0 ==> |r| > 0 && r[0] == s[0]
  {
    if |s| < 2 then s
    else if s[0] == '/' && s[1] == '/' then
      assert HasDoubleSlash(s) by { assert s[0] == '/' && s[1] == '/'; }
      CollapseSlashes(s[1..])
    else
      var rest := CollapseSlashes(s[1..]);
      assert !HasDoubleSlash(s) ==> !HasDoubleSlash(s[1..]) by {
        if HasDoubleSlash(s[1..]) {
          var k :| 0 <= k < |s[1..]| - 1 && s[1..][k] == '/' && s[1..][k + 1] == '/';
          assert s[k + 1] == '/' && s[k + 2] == '/';
        }
      }
      var r := [s[0]] + rest;
      assert r[1..] == rest;
      r
  }

  /** `u.pathname.replace(/^\//, '')`: the pathname without one leading `/`. */
  function CleanPath(pathname: string): (clean: string)
    ensures pathname == (if StartsWith(pathname, "/") then "/" else "") + clean
  {
    if StartsWith(pathname, "/") then pathname[1..] else pathname
  }

  /**
   * Where a URL with this host and pathname is saved:
   * `path.join(OUTPUT_DIR, host, cleanPath || 'index')`. The join collapses
   * repeated `/`, and it resolves a host that is a `.` or `..` segment: `.`
   * disappears, and `..` cancels `downloaded_resources`, leaving a path
   * relative to the working directory (`./` when nothing else is left).
   */
  function DestPath(host: string, pathname: string): (dest: string)
    ensures forall c :: c in dest ==> c in OutputDir + "/" || c in host || c in pathname || c in "index"
  {
    var clean := CleanPath(pathname);
    assert forall c :: c in clean ==> c in pathname;
    var tail := if clean == [] then "index" else clean;
    if host == "." then
      CollapseSlashes(OutputDir + "/" + tail)
    else if host == ".." then
      var rest := CleanPath(CollapseSlashes(tail));
      if rest == [] then "./" else rest
    else
      CollapseSlashes(OutputDir + "/" + host + "/" + tail)
  }

  /**
   * For a host and a pathname without `//` (the URL parser yields such hosts
   * and, as a rule, such pathnames), the file is
   * `downloaded_resources/<host>/<pathname minus one leading '/'>`, or
   * `.../<host>/index` when that is empty. The query string cannot reach it:
   * nothing in the result comes from outside the host and the pathname.
   * (The hosts `.` and `..` are `DestPathDotHosts`.)
   */
  lemma DestPathSpec(host: string, pathname: string)
    requires |host| > 0 && '/' !in host && host != "." && host != ".."
    requires !HasDoubleSlash(pathname)
    ensures var clean := CleanPath(pathname);
      DestPath(host, pathname) == OutputDir + "/" + host + "/" + (if clean == [] then "index" else clean)
  {
    var clean := CleanPath(pathname);
    var tail := if clean == [] then "index" else clean;
    var dir := OutputDir + "/";
    NoSlashNoDoubleSlash(OutputDir);
    assert !HasDoubleSlash("/");
    NoDoubleSlashConcat(OutputDir, "/");
    NoSlashNoDoubleSlash(host);
    NoDoubleSlashConcat(dir, host);
    NoDoubleSlashConcat(dir + host, "/");
    TailNoDoubleSlash(pathname);
    NoDoubleSlashConcat(dir + host + "/", tail);
  }

  /**
   * The hosts `.` and `..` (which `new URL('http://../x')` yields) are path
   * segments to the join: `.` saves into `downloaded_resources/` itself, and
   * `..` saves relative to the working directory, outside the output directory.
   */
  lemma DestPathDotHosts(pathname: string)
    requires !HasDoubleSlash(pathname)
    ensures var clean := CleanPath(pathname);
      var tail := if clean == [] then "index" else clean;
      && DestPath(".", pathname) == OutputDir + "/" + tail
      && DestPath("..", pathname) == tail
  {
    var clean := CleanPath(pathname);
    var tail := if clean == [] then "index" else clean;
    NoSlashNoDoubleSlash(OutputDir);
    assert !HasDoubleSlash("/");
    NoDoubleSlashConcat(OutputDir, "/");
    TailNoDoubleSlash(pathname);
    NoDoubleSlashConcat(OutputDir + "/", tail);
    assert CleanPath(tail) == tail;
  }

  /** The part of a pathname without `//` that the join appends holds no `//` and does not start with `/`. */
  lemma TailNoDoubleSlash(pathname: string)
    requires !HasDoubleSlash(pathname)
    ensures var clean := CleanPath(pathname);
      var tail := if clean == [] then "index" else clean;
      && !HasDoubleSlash(tail) && tail != [] && tail[0] != '/'
  {
    var clean := CleanPath(pathname);
    if clean == [] {
      NoSlashNoDoubleSlash("index");
    } else {
      var off := |pathname| - |clean|;
      assert clean == pathname[off..];
      NoDoubleSlashSuffix(pathname, off);
      if off == 1 {
        assert clean[0] == pathname[1] && pathname[0] == '/';
        assert !(pathname[0] == '/' && pathname[1] == '/');
      }
    }
  }

  /** A string without `/` holds no `//`. */
  lemma NoSlashNoDoubleSlash(s: string)
    requires '/' !in s
    ensures !HasDoubleSlash(s)
  {
    forall k | 0 <= k < |s| - 1 ensures s[k] != '/' {
      assert s[k] in s;
    }
  }

  /** A suffix of a string without `//` holds none either. */
  lemma NoDoubleSlashSuffix(s: string, off: nat)
    requires off <= |s| && !HasDoubleSlash(s)
    ensures !HasDoubleSlash(s[off..])
  {
    var t := s[off..];
    forall k | 0 <= k < |t| - 1 ensures !(t[k] == '/' && t[k + 1] == '/') {
      assert t[k] == s[off + k] && t[k + 1] == s[off + k + 1];
    }
  }

  /** Joining two strings without `//` creates none, unless the first ends and the second starts with `/`. */
  lemma NoDoubleSlashConcat(a: string, b: string)
    requires !HasDoubleSlash(a) && !HasDoubleSlash(b)
    requires a == [] || b == [] || a[|a| - 1] != '/' || b[0] != '/'
    ensures !HasDoubleSlash(a + b)
  {
    var s := a + b;
    forall k | 0 <= k < |s| - 1 ensures !(s[k] == '/' && s[k + 1] == '/') {
      if k + 1 < |a| {
        assert s[k] == a[k] && s[k + 1] == a[k + 1];
      } else if k >= |a| {
        assert s[k] == b[k - |a|] && s[k + 1] == b[k + 1 - |a|];
      } else {
        assert s[k] == a[|a| - 1] && s[k + 1] == b[0];
      }
    }
  }

  /** The query string is left out of the file path: `https://h/a/b.png?v=1` is saved as `downloaded_resources/h/a/b.png`. */
  lemma DestPathExample()
    ensures DestPath("h", "/a/b.png") == "downloaded_resources/h/a/b.png"
  {
    DestPathSpec("h", "/a/b.png");
    assert CleanPath("/a/b.png") == "a/b.png";
  }

  /** A link to `http://../a.png` is saved as `a.png`, in the working directory rather than under `downloaded_resources`. */
  lemma DestPathParentExample()
    ensures DestPath("..", "/a.png") == "a.png"
  {
    DestPathDotHosts("/a.png");
    assert CleanPath("/a.png") == "a.png";
  }

  /** An empty path falls back to `index`: `https://h/` is saved as `downloaded_resources/h/index`. */
  lemma DestPathIndexExample()
    ensures DestPath("h", "/") == "downloaded_resources/h/index"
  {
    DestPathSpec("h", "/");
    assert CleanPath("/") == "";
  }

  // ---------------------------------------------------------------------------
  // The download loop: `main` and `downloadFile`

  /** The host and pathname `new URL(url)` yields. */
  datatype UrlParts = UrlParts(host: string, pathname: string)

  /** How `downloadFile` ends: the file saved, or the message of the error it caught. */
  datatype FetchResult = Saved | FetchError(message: string)

  /** What happens to one listed URL. */
  datatype Step =
    | Skipped
    | InvalidUrl
    | Downloaded(dest: string)
    | DownloadFailed(dest: string, message: string)

  /** The step for one URL: skip fliphtml5, report a URL that does not parse, otherwise fetch the full URL into its destination. */
  function StepOf(url: string, parse: string -> Option<UrlParts>, fetch: FetchResult): (step: Step)
    ensures step.Skipped? <==> StartsWith(url, SkipPrefix)
    ensures step.InvalidUrl? <==> !StartsWith(url, SkipPrefix) && parse(url).None?
    ensures step.Downloaded? <==> !StartsWith(url, SkipPrefix) && parse(url).Some? && fetch.Saved?
    ensures (step.Downloaded? || step.DownloadFailed?) ==>
      step.dest == DestPath(parse(url).value.host, parse(url).value.pathname)
    ensures step.DownloadFailed? ==> fetch == FetchError(step.message)
  {
    if StartsWith(url, SkipPrefix) then Skipped
    else
      match parse(url)
      case None => InvalidUrl
      case Some(parts) =>
        var dest := DestPath(parts.host, parts.pathname);
        match fetch
        case Saved => Downloaded(dest)
        case FetchError(message) => DownloadFailed(dest, message)
  }

  /** The steps for all listed URLs, one per URL, each from that URL and its own download only. */
  function Steps(urls: seq<string>, parse: string -> Option<UrlParts>, fetches: seq<FetchResult>): (steps: seq<Step>)
    requires |fetches| == |urls|
  {
    MapPairs(urls, fetches, (url, fetch) => StepOf(url, parse, fetch))
  }

  /** The success-log line of a step, if any. */
  function SuccessLines(url: string, step: Step): seq<string> {
    if step.Downloaded? then [url + " -> " + step.dest + "\n"] else []
  }

  /** The failure-log line of a step, if any: the fetch error's message, or `Invalid URL`. */
  function FailLines(url: string, step: Step): seq<string> {
    match step
    case InvalidUrl => [url + " -> " + InvalidUrlMessage + "\n"]
    case DownloadFailed(_, message) => [url + " -> " + message + "\n"]
    case _ => []
  }

  /** The URL handed to the HTTP client for a step, if any: the full listed URL, query included. */
  function RequestedUrls(url: string, step: Step): seq<string> {
    if step.Downloaded? || step.DownloadFailed? then [url] else []
  }

  /** The concatenation of `f(urls[i], steps[i])` over the run. */
  function Collect(urls: seq<string>, steps: seq<Step>, f: (string, Step) -> seq<string>): (out: seq<string>)
    requires |steps| == |urls|
  {
    if urls == [] then []
    else
      var n := |urls| - 1;
      Collect(urls[..n], steps[..n], f) + f(urls[n], steps[n])
  }

  lemma CollectSnoc(urls: seq<string>, steps: seq<Step>, url: string, step: Step, f: (string, Step) -> seq<string>)
    requires |steps| == |urls|
    ensures Collect(urls + [url], steps + [step], f) == Collect(urls, steps, f) + f(url, step)
  {
    assert (urls + [url])[..|urls|] == urls && (steps + [step])[..|urls|] == steps;
  }

  /** The number of URLs the run does not skip. */
  function CountAttempted(urls: seq<string>): (n: nat)
    ensures n <= |urls|
  {
    if urls == [] then 0
    else
      var last := |urls| - 1;
      CountAttempted(urls[..last]) + (if StartsWith(urls[last], SkipPrefix) then 0 else 1)
  }

  /** A step skips its URL exactly when the URL is a fliphtml5 viewer URL. */
  ghost predicate SkipsFlipbooks(urls: seq<string>, steps: seq<Step>) {
    |steps| == |urls| && forall k :: 0 <= k < |urls| ==> (steps[k].Skipped? <==> StartsWith(urls[k], SkipPrefix))
  }

  /** The steps `StepOf` gives skip exactly the fliphtml5 viewer URLs. */
  lemma StepsSkipFlipbooks(urls: seq<string>, parse: string -> Option<UrlParts>, fetches: seq<FetchResult>)
    requires |fetches| == |urls|
    ensures SkipsFlipbooks(urls, Steps(urls, parse, fetches))
  {
    forall k | 0 <= k < |urls| ensures (Steps(urls, parse, fetches)[k].Skipped? <==> StartsWith(urls[k], SkipPrefix)) {
      MapPairsAt(urls, fetches, (url, fetch) => StepOf(url, parse, fetch), k);
    }
  }

  /**
   * Every URL that is not skipped leaves exactly one log line, and skipped
   * URLs leave none; no fliphtml5 URL is ever requested, and every requested
   * URL is one of the listed URLs.
   */
  lemma {:induction false} RunSpec(urls: seq<string>, steps: seq<Step>)
    requires SkipsFlipbooks(urls, steps)
    ensures |Collect(urls, steps, SuccessLines)| + |Collect(urls, steps, FailLines)| == CountAttempted(urls)
    ensures forall u :: u in Collect(urls, steps, RequestedUrls) ==> u in urls && !StartsWith(u, SkipPrefix)
  {
    if urls != [] {
      var n := |urls| - 1;
      assert SkipsFlipbooks(urls[..n], steps[..n]) by {
        forall k | 0 <= k < n ensures (steps[..n][k].Skipped? <==> StartsWith(urls[..n][k], SkipPrefix)) {
          assert steps[..n][k] == steps[k] && urls[..n][k] == urls[k];
        }
      }
      RunSpec(urls[..n], steps[..n]);
      var prev := Collect(urls[..n], steps[..n], RequestedUrls);
      assert Collect(urls, steps, RequestedUrls) == prev + RequestedUrls(urls[n], steps[n]);
      forall u | u in prev ensures u in urls {
        assert u in urls[..n];
      }
    }
  }

  /** One more URL extends the requests and the logs by that URL's step. */
  lemma RunSnoc(urls: seq<string>, i: nat, steps: seq<Step>, step: Step)
    requires i < |urls| && |steps| == i
    ensures Collect(urls[..i + 1], steps + [step], RequestedUrls) == Collect(urls[..i], steps, RequestedUrls) + RequestedUrls(urls[i], step)
    ensures Collect(urls[..i + 1], steps + [step], SuccessLines) == Collect(urls[..i], steps, SuccessLines) + SuccessLines(urls[i], step)
    ensures Collect(urls[..i + 1], steps + [step], FailLines) == Collect(urls[..i], steps, FailLines) + FailLines(urls[i], step)
  {
    CollectPrefixSnoc(urls, i, steps, step, RequestedUrls);
    CollectPrefixSnoc(urls, i, steps, step, SuccessLines);
    CollectPrefixSnoc(urls, i, steps, step, FailLines);
  }

  lemma CollectPrefixSnoc(urls: seq<string>, i: nat, steps: seq<Step>, step: Step, f: (string, Step) -> seq<string>)
    requires i < |urls| && |steps| == i
    ensures Collect(urls[..i + 1], steps + [step], f) == Collect(urls[..i], steps, f) + f(urls[i], step)
  {
    assert urls[..i + 1] == urls[..i] + [urls[i]];
    CollectSnoc(urls[..i], steps, urls[i], step, f);
  }

  /**
   * The body of `main`'s loop for one URL: skip a fliphtml5 URL; log
   * `Invalid URL` for one that does not parse; otherwise download the full
   * URL and log the outcome.
   */
  method DownloadOne(url: string, parse: string -> Option<UrlParts>, fetch: FetchResult)
    returns (step: Step, newRequests: seq<string>, newSuccesses: seq<string>, newFailures: seq<string>)
    ensures step == StepOf(url, parse, fetch)
    ensures newRequests == RequestedUrls(url, step)
    ensures newSuccesses == SuccessLines(url, step)
    ensures newFailures == FailLines(url, step)
  {
    newRequests, newSuccesses, newFailures := [], [], [];
    if StartsWith(url, SkipPrefix) {
      step := Skipped;
    } else {
      match parse(url)
      case None =>
        step := InvalidUrl;
        newFailures := [url + " -> " + InvalidUrlMessage + "\n"];
      case Some(u) =>
        var filePath := DestPath(u.host, u.pathname);
        newRequests := [url];
        match fetch
        case Saved =>
          step := Downloaded(filePath);
          newSuccesses := [url + " -> " + filePath + "\n"];
        case FetchError(message) =>
          step := DownloadFailed(filePath, message);
          newFailures := [url + " -> " + message + "\n"];
    }
  }

  /**
   * `main`: go through the listed URLs in order, handling each with
   * `DownloadOne`. No outcome stops the loop.
   */
  method RunDownloads(urls: seq<string>, parse: string -> Option<UrlParts>, fetches: seq<FetchResult>)
    returns (steps: seq<Step>, requested: seq<string>, successLog: seq<string>, failLog: seq<string>)
    requires |fetches| == |urls|
    ensures steps == Steps(urls, parse, fetches)
    ensures requested == Collect(urls, steps, RequestedUrls)
    ensures successLog == Collect(urls, steps, SuccessLines)
    ensures failLog == Collect(urls, steps, FailLines)
  {
    steps, requested, successLog, failLog := [], [], [], [];
    for i := 0 to |urls|
      invariant steps == Steps(urls[..i], parse, fetches[..i])
      invariant requested == Collect(urls[..i], steps, RequestedUrls)
      invariant successLog == Collect(urls[..i], steps, SuccessLines)
      invariant failLog == Collect(urls[..i], steps, FailLines)
    {
      var step, newRequests, newSuccesses, newFailures := DownloadOne(urls[i], parse, fetches[i]);
      RunSnoc(urls, i, steps, step);
      MapPairsSnoc(urls, fetches, (url, fetch) => StepOf(url, parse, fetch), i);
      requested, successLog, failLog := requested + newRequests, successLog + newSuccesses, failLog + newFailures;
      steps := steps + [step];
    }
    assert urls[..|urls|] == urls && fetches[..|fetches|] == fetches;
  }

  /** The whole script: read the list, then run the downloads. */
  method DownloadAll(text: string, parse: string -> Option<UrlParts>, fetches: seq<FetchResult>)
    returns (requested: seq<string>, successLog: seq<string>, failLog: seq<string>)
    requires |fetches| == |SelectTrimmed(SplitLines(text), IsHttpUrl)|
    ensures var urls := SelectTrimmed(SplitLines(text), IsHttpUrl);
      && |successLog| + |failLog| == CountAttempted(urls)
      && (forall u :: u in requested ==> u in urls && !StartsWith(u, SkipPrefix))
  {
    var urls := ParseUrls(text);
    var steps;
    steps, requested, successLog, failLog := RunDownloads(urls, parse, fetches);
    StepsSkipFlipbooks(urls, parse, fetches);
    RunSpec(urls, steps);
  }
}
