/**
 * The hand-off between the scripts: download_resources.js reads the file
 * extract_links_by_domain.js writes, `all_links_by_domain.txt`.
 */
module Pipeline {
  import opened Text
  import opened Ordering
  import opened Links
  import Resources

  /** Every URL listed in the file, in file order: the URLs of each domain, sorted, domain after domain. */
  function LinkUrls(domains: seq<string>, links: map<string, seq<string>>): (urls: seq<string>)
    requires forall d :: d in domains ==> d in links
  {
    if domains == [] then []
    else
      var n := |domains| - 1;
      LinkUrls(domains[..n], links) + Sort(links[domains[n]])
  }

  /** A line selected by the downloader holds a `/`, so a host line never is. */
  lemma {:induction false} HostLineDropped(d: string)
    requires '/' !in d
    ensures SelectTrimmed([d], Resources.IsHttpUrl) == []
  {
    assert [d][..0] == [];
    var t := Trim(d);
    WindowSlice(d, LeadingSpaces(d), |t|);
    forall k | 0 <= k < |t| ensures t[k] != '/' {
      assert t[k] == d[LeadingSpaces(d) + k];
    }
    if |t| >= 7 {
      assert t[..7][6] == t[6];
    }
    if |t| >= 8 {
      assert t[..8][6] == t[6];
    }
    assert "http://"[6] == '/' && "https://"[6] == '/';
    assert !Resources.IsHttpUrl(t);
  }

  /** Removing the two-space indent is what the downloader's `trim` does to a URL line. */
  lemma {:induction false} IndentedLinesRead(urls: seq<string>)
    requires forall u :: u in urls ==> Trim(u) == u
    ensures SelectTrimmed(Indented(urls), Resources.IsHttpUrl) == SelectTrimmed(urls, Resources.IsHttpUrl)
  {
    if urls != [] {
      var m := |urls| - 1;
      var init, u := urls[..m], urls[m];
      assert urls == init + [u];
      IndentedLinesRead(init);
      TrimmedEnds(u);
      IndentedLineRead(init, u);
      SelectTrimmedSnoc(init, u, Resources.IsHttpUrl);
    }
  }

  /** One more indented URL line is read back as that URL. */
  lemma IndentedLineRead(init: seq<string>, u: string)
    requires u == [] || (!IsTrimSpace(u[0]) && !IsTrimSpace(u[|u| - 1]))
    ensures SelectTrimmed(Indented(init + [u]), Resources.IsHttpUrl) ==
      SelectTrimmed(Indented(init), Resources.IsHttpUrl) + (if Resources.IsHttpUrl(u) then [u] else [])
  {
    IndentedSnoc(init, u);
    TrimPadded(Indent, u);
    SelectTrimmedSnoc(Indented(init), Indent + u, Resources.IsHttpUrl);
  }

  /** A host line and its URL lines add the http(s) URLs among those URLs. */
  lemma {:induction false} BlockRead(before: seq<string>, d: string, urls: seq<string>)
    requires '/' !in d
    requires forall u :: u in urls ==> Trim(u) == u
    ensures SelectTrimmed(before + [d] + Indented(urls), Resources.IsHttpUrl) ==
      SelectTrimmed(before, Resources.IsHttpUrl) + SelectTrimmed(urls, Resources.IsHttpUrl)
  {
    var keep := Resources.IsHttpUrl;
    SelectTrimmedAppend(before + [d], Indented(urls), keep);
    SelectTrimmedAppend(before, [d], keep);
    HostLineDropped(d);
    assert SelectTrimmed(before + [d], keep) == SelectTrimmed(before, keep);
    IndentedLinesRead(urls);
  }

  /** The downloader selects from the layout exactly the http(s) URLs among the listed ones. */
  lemma {:induction false} LayoutRead(domains: seq<string>, links: map<string, seq<string>>)
    requires forall d :: d in domains ==> d in links && '/' !in d
    requires forall d :: d in domains ==> forall u :: u in links[d] ==> Trim(u) == u
    ensures SelectTrimmed(Layout(domains, links), Resources.IsHttpUrl) == SelectTrimmed(LinkUrls(domains, links), Resources.IsHttpUrl)
  {
    if domains != [] {
      var n := |domains| - 1;
      var d := domains[n];
      var urls := Sort(links[d]);
      LayoutRead(domains[..n], links);
      SortKeepsElements(links[d]);
      BlockRead(Layout(domains[..n], links), d, urls);
      SelectTrimmedAppend(LinkUrls(domains[..n], links), urls, Resources.IsHttpUrl);
    }
  }

  /**
   * Running the downloader on the extractor's output fetches the http(s) URLs
   * the extractor listed, in the order it listed them: host lines are
   * dropped, URL lines lose their indent, other schemes are skipped.
   */
  lemma ExtractedLinksRead(occs: seq<Occurrence>)
    requires Printable(Collect(occs))
    requires forall h :: h in Collect(occs).links ==> '/' !in h
    requires forall h :: h in Collect(occs).links ==> forall u :: u in Collect(occs).links[h] ==> Trim(u) == u
    ensures var g := Collect(occs);
      (forall d :: d in Sort(g.hosts) ==> d in g.links) &&
      SelectTrimmed(SplitLines(Output(occs)), Resources.IsHttpUrl) == SelectTrimmed(LinkUrls(Sort(g.hosts), g.links), Resources.IsHttpUrl)
  {
    var g := Collect(occs);
    var domains := Sort(g.hosts);
    SortKeepsElements(g.hosts);
    var lines := Layout(domains, g.links);
    if g.hosts == [] {
      assert Output(occs) == [];
      assert SplitLines([]) == [""];
      assert [""][..0] == [];
      assert domains == [] by {
        assert |multiset(domains)| == |multiset(g.hosts)|;
      }
    } else {
      assert domains != [] by {
        assert g.hosts[0] in g.hosts;
      }
      assert Output(occs) == Join(lines, "\n");
      LayoutTextRead(domains, g.links);
    }
  }

  /** The downloader reads back from a joined layout the http(s) URLs among the listed ones. */
  lemma LayoutTextRead(domains: seq<string>, links: map<string, seq<string>>)
    requires domains != []
    requires forall d :: d in domains ==> d in links && CleanLine(d) && '/' !in d
    requires forall d :: d in domains ==> forall u :: u in links[d] ==> CleanLine(u) && Trim(u) == u
    ensures SelectTrimmed(SplitLines(Join(Layout(domains, links), "\n")), Resources.IsHttpUrl) ==
      SelectTrimmed(LinkUrls(domains, links), Resources.IsHttpUrl)
  {
    var lines := Layout(domains, links);
    LayoutLinesClean(domains, links);
    SplitJoin(lines);
    LayoutRead(domains, links);
  }
}
