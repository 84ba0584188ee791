/**
 * extract_links_by_domain.js: group the URLs found in `href`/`src`
 * attributes by host, then write `all_links_by_domain.txt` with each host in
 * ascending order followed by its distinct URLs, ascending, indented by two
 * spaces.
 *
 * Finding the HTML files, parsing them and resolving each attribute value
 * against the page's base URL are not modelled: the scan receives the
 * visited elements in order, each with its attribute value and what
 * `new URL(value, base)` gives for it.
 */
module Links {
  import opened Wrappers
  import opened Text
  import opened Ordering

  const OutputFile := "all_links_by_domain.txt"
  const Indent := "  "

  /** The `host` and `href` of `new URL(value, base)`. */
  datatype Resolved = Resolved(host: string, href: string)

  /**
   * One visited element: the value of its URL attribute (`None` when it has
   * none), and the resolved URL (`None` when `new URL` throws).
   */
  datatype Occurrence = Occurrence(value: Option<string>, resolved: Option<Resolved>)

  /** The element's URL is recorded: the value is non-empty, it resolves, and its host is non-empty. */
  predicate Records(o: Occurrence) {
    o.value.Some? && o.value.value != [] && o.resolved.Some? && o.resolved.value.host != []
  }

  // ---------------------------------------------------------------------------
  // The domain map

  /** `domainMap` as a value: its keys in insertion order, and each key's Set as its elements in insertion order. */
  datatype Groups = Groups(hosts: seq<string>, links: map<string, seq<string>>)

  /** Keys listed once each, exactly the map's keys, each with a non-empty, duplicate-free Set. */
  ghost predicate WellFormed(g: Groups) {
    && Distinct(g.hosts)
    && (forall h :: h in g.links <==> h in g.hosts)
    && (forall h :: h in g.links ==> |g.links[h]| > 0 && Distinct(g.links[h]))
  }

  /** `href` is in the Set stored under `host`. */
  predicate Filed(g: Groups, host: string, href: string) {
    host in g.links && href in g.links[host]
  }

  /** `if (!domainMap[host]) domainMap[host] = new Set(); domainMap[host].add(href)`. */
  function AddLink(g: Groups, host: string, href: string): (r: Groups)
    requires WellFormed(g)
    ensures WellFormed(r)
    ensures r.links.Keys == g.links.Keys + {host}
    ensures forall h, u :: Filed(r, h, u) <==> Filed(g, h, u) || (h == host && u == href)
  {
    if host in g.links then Groups(g.hosts, g.links[host := SetAdd(g.links[host], href)])
    else Groups(g.hosts + [host], g.links[host := [href]])
  }

  /** What one element does to the map. */
  function Visited(g: Groups, o: Occurrence): (r: Groups)
    requires WellFormed(g)
    ensures WellFormed(r)
  {
    if Records(o) then AddLink(g, o.resolved.value.host, o.resolved.value.href) else g
  }

  /** The map after visiting `occs` in order, starting from `{}`. */
  function Collect(occs: seq<Occurrence>): (g: Groups)
    ensures WellFormed(g)
  {
    if occs == [] then Groups([], map[])
    else Visited(Collect(occs[..|occs| - 1]), occs[|occs| - 1])
  }

  /** The host and URL an element contributes, when it contributes one. */
  predicate Contributes(o: Occurrence, host: string, href: string) {
    Records(o) && o.resolved.value == Resolved(host, href)
  }

  /**
   * A URL is filed under a host exactly when some visited element has a
   * non-empty value resolving to that URL with that (non-empty) host.
   */
  lemma {:induction false} CollectSpec(occs: seq<Occurrence>)
    ensures forall h, u :: Filed(Collect(occs), h, u) <==> exists k :: 0 <= k < |occs| && Contributes(occs[k], h, u)
    ensures forall h :: h in Collect(occs).hosts ==> h != []
  {
    if occs != [] {
      var n := |occs| - 1;
      CollectSpec(occs[..n]);
      var prev := Collect(occs[..n]);
      var g := Collect(occs);
      var o := occs[n];
      forall h, u ensures Filed(g, h, u) <==> exists k :: 0 <= k < |occs| && Contributes(occs[k], h, u) {
        var here := Filed(prev, h, u);
        assert here <==> exists k :: 0 <= k < n && Contributes(occs[..n][k], h, u);
        if here {
          var k :| 0 <= k < n && Contributes(occs[..n][k], h, u);
          assert Contributes(occs[k], h, u);
        }
        if exists k :: 0 <= k < |occs| && Contributes(occs[k], h, u) {
          var k :| 0 <= k < |occs| && Contributes(occs[k], h, u);
          if k < n {
            assert Contributes(occs[..n][k], h, u);
          }
        }
        if Records(o) {
          assert g == AddLink(prev, o.resolved.value.host, o.resolved.value.href);
          assert Filed(g, h, u) <==> here || Contributes(o, h, u);
        } else {
          assert g == prev;
          assert !Contributes(o, h, u);
        }
      }
      forall h | h in g.hosts ensures h != [] {
        assert h in g.links;
        if h !in prev.links {
          assert Records(o) && h == o.resolved.value.host;
        } else {
          assert h in prev.hosts;
        }
      }
    }
  }

  /** The script's `domainMap`, updated in place while the pages are scanned. */
  class DomainMap {
    var hosts: seq<string>
    var links: map<string, seq<string>>

    ghost predicate Valid()
      reads this
    {
      WellFormed(Groups(hosts, links))
    }

    constructor()
      ensures Valid()
      ensures hosts == [] && links == map[]
    {
      hosts := [];
      links := map[];
    }

    /** The body of the `.each` callback for one element. */
    method Visit(o: Occurrence)
      requires Valid()
      modifies this
      ensures Valid()
      ensures Groups(hosts, links) == Visited(Groups(old(hosts), old(links)), o)
    {
      if o.value.Some? && o.value.value != [] {
        match o.resolved
        case Some(url) =>
          if url.host != [] {
            File(url.host, url.href);
          }
        case None =>
      }
    }

    /** `if (!domainMap[host]) domainMap[host] = new Set(); domainMap[host].add(href)`. */
    method File(host: string, href: string)
      requires Valid()
      modifies this
      ensures Valid()
      ensures Groups(hosts, links) == AddLink(Groups(old(hosts), old(links)), host, href)
    {
      ghost var g := Groups(hosts, links);
      if host !in links {
        hosts := hosts + [host];
        links := links[host := []];
      }
      var elems := links[host];
      assert elems == if host in g.links then g.links[host] else [];
      if href !in elems {
        elems := elems + [href];
      }
      links := links[host := elems];
      if host in g.links {
        assert elems == SetAdd(g.links[host], href);
        assert Groups(hosts, links) == Groups(g.hosts, g.links[host := SetAdd(g.links[host], href)]);
      } else {
        assert elems == [href];
        assert links == g.links[host := [href]];
      }
      assert Groups(hosts, links) == AddLink(g, host, href);
    }

    /** The `out` array: each key in ascending order, then its URLs in ascending order, indented. */
    method Render() returns (out: seq<string>)
      requires Valid()
      ensures (forall d :: d in Sort(hosts) ==> d in links) && out == Layout(Sort(hosts), links)
    {
      var sortedDomains := Sort(hosts);
      SortKeepsElements(hosts);
      out := PushDomains(sortedDomains, links);
    }
  }

  /** The loop over the sorted keys: each key, then its URLs sorted and indented. */
  method PushDomains(sortedDomains: seq<string>, links: map<string, seq<string>>) returns (out: seq<string>)
    requires forall d :: d in sortedDomains ==> d in links
    ensures out == Layout(sortedDomains, links)
  {
    out := [];
    for i := 0 to |sortedDomains|
      invariant out == Layout(sortedDomains[..i], links)
    {
      var domain := sortedDomains[i];
      LayoutPrefix(sortedDomains, links, i);
      out := out + [domain];
      out := PushIndented(out, Sort(links[domain]));
    }
    assert sortedDomains[..|sortedDomains|] == sortedDomains;
  }

  /** `for (const url of urls) out.push('  ' + url)`. */
  method PushIndented(out: seq<string>, urls: seq<string>) returns (r: seq<string>)
    ensures r == out + Indented(urls)
  {
    r := out;
    for j := 0 to |urls|
      invariant r == out + Indented(urls[..j])
    {
      assert urls[..j + 1] == urls[..j] + [urls[j]];
      r := r + [Indent + urls[j]];
    }
    assert urls[..|urls|] == urls;
  }

  // ---------------------------------------------------------------------------
  // The output file

  /** The URL lines of one domain. */
  function Indented(urls: seq<string>): (lines: seq<string>)
    ensures |lines| == |urls|
    ensures forall k :: 0 <= k < |urls| ==> lines[k] == Indent + urls[k]
  {
    if urls == [] then [] else Indented(urls[..|urls| - 1]) + [Indent + urls[|urls| - 1]]
  }

  /** Indenting one more URL adds one more indented line. */
  lemma IndentedSnoc(urls: seq<string>, u: string)
    ensures Indented(urls + [u]) == Indented(urls) + [Indent + u]
  {
    assert (urls + [u])[..|urls|] == urls;
  }

  /** The output lines for `domains` in the given order. */
  function Layout(domains: seq<string>, links: map<string, seq<string>>): (lines: seq<string>)
    requires forall d :: d in domains ==> d in links
    ensures |lines| >= |domains|
    ensures domains == [] <==> lines == []
    ensures domains != [] ==> lines[0] == domains[0]
  {
    if domains == [] then []
    else
      var n := |domains| - 1;
      var prev := Layout(domains[..n], links);
      assert n > 0 ==> prev[0] == domains[0] by {
        if n > 0 {
          assert domains[..n][0] == domains[0];
        }
      }
      prev + [domains[n]] + Indented(Sort(links[domains[n]]))
  }

  lemma LayoutSnoc(domains: seq<string>, d: string, links: map<string, seq<string>>)
    requires forall x :: x in domains ==> x in links
    requires d in links
    ensures Layout(domains + [d], links) == Layout(domains, links) + [d] + Indented(Sort(links[d]))
  {
    assert (domains + [d])[..|domains|] == domains;
  }

  /** The layout of one more domain of the same list. */
  lemma LayoutPrefix(domains: seq<string>, links: map<string, seq<string>>, i: nat)
    requires forall x :: x in domains ==> x in links
    requires i < |domains|
    ensures forall x :: x in domains[..i] ==> x in links
    ensures forall x :: x in domains[..i + 1] ==> x in links
    ensures Layout(domains[..i + 1], links) == Layout(domains[..i], links) + [domains[i]] + Indented(Sort(links[domains[i]]))
  {
    assert domains[..i + 1] == domains[..i] + [domains[i]];
    LayoutSnoc(domains[..i], domains[i], links);
  }

  /** The number of URLs filed under `domains`. */
  function TotalLinks(domains: seq<string>, links: map<string, seq<string>>): nat
    requires forall d :: d in domains ==> d in links
  {
    if domains == [] then 0
    else TotalLinks(domains[..|domains| - 1], links) + |links[domains[|domains| - 1]]|
  }

  /** The file holds one line per domain and one per URL. */
  lemma {:induction false} LayoutLength(domains: seq<string>, links: map<string, seq<string>>)
    requires forall d :: d in domains ==> d in links
    ensures |Layout(domains, links)| == |domains| + TotalLinks(domains, links)
  {
    if domains != [] {
      var n := |domains| - 1;
      LayoutLength(domains[..n], links);
      SortKeepsElements(links[domains[n]]);
    }
  }

  /** A domain with the URLs listed under it. */
  datatype Block = Block(domain: string, urls: seq<string>)

  /** What the file says, domain by domain: each in the given order with its URLs sorted. */
  function Blocks(domains: seq<string>, links: map<string, seq<string>>): (blocks: seq<Block>)
    requires forall d :: d in domains ==> d in links
    ensures |blocks| == |domains|
    ensures forall k :: 0 <= k < |domains| ==> blocks[k] == Block(domains[k], Sort(links[domains[k]]))
  {
    if domains == [] then []
    else
      var n := |domains| - 1;
      var prev := domains[..n];
      assert forall k :: 0 <= k < n ==> prev[k] == domains[k];
      Blocks(prev, links) + [Block(domains[n], Sort(links[domains[n]]))]
  }

  /**
   * A reader for the file's lines: a line indented by two spaces adds a URL
   * to the current domain, any other line starts a new domain.
   */
  function ParseBlocks(lines: seq<string>): seq<Block> {
    if lines == [] then []
    else
      var n := |lines| - 1;
      AddLine(ParseBlocks(lines[..n]), lines[n])
  }

  function AddLine(blocks: seq<Block>, line: string): seq<Block> {
    if !StartsWith(line, Indent) then blocks + [Block(line, [])]
    else if blocks == [] then blocks
    else
      var last := blocks[|blocks| - 1];
      blocks[..|blocks| - 1] + [Block(last.domain, last.urls + [line[|Indent|..]])]
  }

  /** Reading a domain line and its URL lines back yields that domain with those URLs. */
  lemma {:induction false} ParseBlock(before: seq<string>, domain: string, urls: seq<string>)
    requires !StartsWith(domain, Indent)
    ensures ParseBlocks(before + [domain] + Indented(urls)) == ParseBlocks(before) + [Block(domain, urls)]
  {
    var lines := before + [domain] + Indented(urls);
    if urls == [] {
      assert lines[..|lines| - 1] == before;
    } else {
      var m := |urls| - 1;
      var prevLines := before + [domain] + Indented(urls[..m]);
      var line := Indent + urls[m];
      assert lines == prevLines + [line];
      assert lines[..|lines| - 1] == prevLines;
      ParseBlock(before, domain, urls[..m]);
      var blocks := ParseBlocks(prevLines);
      assert blocks == ParseBlocks(before) + [Block(domain, urls[..m])];
      assert StartsWith(line, Indent) && line[|Indent|..] == urls[m];
      assert ParseBlocks(lines) == AddLine(blocks, line);
      assert blocks[..|blocks| - 1] == ParseBlocks(before);
      assert urls[..m] + [urls[m]] == urls;
    }
  }

  /** Reading the lines back recovers every domain, in order, with its sorted URLs. */
  lemma {:induction false} LayoutRoundTrip(domains: seq<string>, links: map<string, seq<string>>)
    requires forall d :: d in domains ==> d in links
    requires forall d :: d in domains ==> !StartsWith(d, Indent)
    ensures ParseBlocks(Layout(domains, links)) == Blocks(domains, links)
  {
    if domains != [] {
      var n := |domains| - 1;
      LayoutRoundTrip(domains[..n], links);
      ParseBlock(Layout(domains[..n], links), domains[n], Sort(links[domains[n]]));
    }
  }

  /** Every line of the layout is a domain or an indented URL, so it holds no LF or final CR when they do not. */
  lemma {:induction false} LayoutLinesClean(domains: seq<string>, links: map<string, seq<string>>)
    requires forall d :: d in domains ==> d in links && CleanLine(d)
    requires forall d :: d in domains ==> forall u :: u in links[d] ==> CleanLine(u)
    ensures forall k :: 0 <= k < |Layout(domains, links)| ==> CleanLine(Layout(domains, links)[k])
  {
    if domains != [] {
      var n := |domains| - 1;
      var d := domains[n];
      LayoutLinesClean(domains[..n], links);
      var urls := Sort(links[d]);
      SortKeepsElements(links[d]);
      IndentedClean(urls);
      AllCleanConcat(Layout(domains[..n], links) + [d], Indented(urls));
    }
  }

  /** Indenting lines that hold no LF or final CR keeps them so. */
  lemma IndentedClean(urls: seq<string>)
    requires forall u :: u in urls ==> CleanLine(u)
    ensures forall k :: 0 <= k < |Indented(urls)| ==> CleanLine(Indented(urls)[k])
  {
    forall k | 0 <= k < |urls| ensures CleanLine(Indent + urls[k]) {
      assert urls[k] in urls;
      assert forall c :: c in Indent + urls[k] ==> c == ' ' || c in urls[k];
    }
  }

  /** Two runs of clean lines make one. */
  lemma AllCleanConcat(a: seq<string>, b: seq<string>)
    requires forall k :: 0 <= k < |a| ==> CleanLine(a[k])
    requires forall k :: 0 <= k < |b| ==> CleanLine(b[k])
    ensures forall k :: 0 <= k < |a + b| ==> CleanLine((a + b)[k])
  {
    forall k | 0 <= k < |a + b| ensures CleanLine((a + b)[k]) {
      if k < |a| {
        assert (a + b)[k] == a[k];
      } else {
        assert (a + b)[k] == b[k - |a|];
      }
    }
  }

  /** A line with no LF that does not end in CR. */
  predicate CleanLine(s: string) {
    '\n' !in s && (s == [] || s[|s| - 1] != '\r')
  }

  /** Hosts and URLs that can be written one per line: no LF, no final CR, and no host indented. */
  predicate Printable(g: Groups) {
    && (forall h :: h in g.links ==> CleanLine(h) && !StartsWith(h, Indent))
    && (forall h :: h in g.links ==> forall u :: u in g.links[h] ==> CleanLine(u))
  }

  /** The text written to `all_links_by_domain.txt` after visiting `occs`. */
  function Output(occs: seq<Occurrence>): (text: string)
    ensures Collect(occs).hosts == [] <==> text == []
    ensures Collect(occs).hosts != [] ==> StartsWith(text, Sort(Collect(occs).hosts)[0])
  {
    var g := Collect(occs);
    var domains := Sort(g.hosts);
    assert forall d :: d in domains ==> d in g.hosts && d in g.links by { SortKeepsElements(g.hosts); }
    assert |domains| == |g.hosts| by {
      assert |multiset(domains)| == |multiset(g.hosts)|;
    }
    assert domains != [] ==> domains[0] != [] by {
      CollectSpec(occs);
      if domains != [] {
        assert domains[0] in domains;
      }
    }
    Join(Layout(domains, g.links), "\n")
  }

  /**
   * What the file promises: domains in strictly ascending order, each with at
   * least one URL, its URLs strictly ascending and duplicate-free, one line
   * each; no trailing newline, so that reading the file back line by line
   * recovers exactly these blocks (an empty map writes an empty file).
   */
  lemma OutputSpec(occs: seq<Occurrence>)
    requires Printable(Collect(occs))
    ensures var g := Collect(occs);
      var domains := Sort(g.hosts);
      && (forall d :: d in domains <==> d in g.links)
      && StrictlySorted(domains)
      && (forall d :: d in domains ==> |g.links[d]| > 0 && StrictlySorted(Sort(g.links[d])))
      && (g.hosts == [] ==> Output(occs) == [])
      && (g.hosts != [] ==> ParseBlocks(SplitLines(Output(occs))) == Blocks(domains, g.links))
      && (g.hosts != [] ==> |SplitLines(Output(occs))| == |domains| + TotalLinks(domains, g.links))
  {
    var g := Collect(occs);
    var domains := Sort(g.hosts);
    SortKeepsElements(g.hosts);
    SortDistinct(g.hosts);
    forall d | d in domains ensures StrictlySorted(Sort(g.links[d])) {
      SortDistinct(g.links[d]);
    }
    if g.hosts != [] {
      assert domains != [] by {
        assert g.hosts[0] in g.hosts;
      }
      assert Output(occs) == Join(Layout(domains, g.links), "\n");
      LayoutText(domains, g.links);
    }
  }

  /** The joined layout of some domains reads back, line by line, as their blocks. */
  lemma LayoutText(domains: seq<string>, links: map<string, seq<string>>)
    requires domains != []
    requires forall d :: d in domains ==> d in links && CleanLine(d) && !StartsWith(d, Indent)
    requires forall d :: d in domains ==> forall u :: u in links[d] ==> CleanLine(u)
    ensures ParseBlocks(SplitLines(Join(Layout(domains, links), "\n"))) == Blocks(domains, links)
    ensures |SplitLines(Join(Layout(domains, links), "\n"))| == |domains| + TotalLinks(domains, links)
  {
    var lines := Layout(domains, links);
    LayoutLength(domains, links);
    LayoutLinesClean(domains, links);
    SplitJoin(lines);
    LayoutRoundTrip(domains, links);
  }

  /** The whole script: scan the visited elements, then render and join the lines. */
  method ExtractLinks(occs: seq<Occurrence>) returns (text: string)
    ensures text == Output(occs)
  {
    var domainMap := new DomainMap();
    for i := 0 to |occs|
      invariant domainMap.Valid()
      invariant Groups(domainMap.hosts, domainMap.links) == Collect(occs[..i])
    {
      assert occs[..i + 1][..i] == occs[..i];
      domainMap.Visit(occs[i]);
    }
    assert occs[..|occs|] == occs;
    var out := domainMap.Render();
    text := Join(out, "\n");
  }

  // ---------------------------------------------------------------------------
  // `domainMap` is a plain object

  /**
   * The names every plain object inherits from `Object.prototype`: looking
   * one up on `{}` yields a truthy value (a function, or the prototype for
   * `__proto__`) that is not a Set. Hosts of special schemes such as `http`
   * are lower-cased, so there only `constructor` and `__proto__` can occur;
   * the opaque hosts of other schemes (`x://toString/`) keep their case and
   * can spell any of them.
   */
  const InheritedKeys: set<string> := {
    "constructor", "__proto__", "hasOwnProperty", "isPrototypeOf",
    "propertyIsEnumerable", "toString", "toLocaleString", "valueOf",
    "__defineGetter__", "__defineSetter__", "__lookupGetter__", "__lookupSetter__"
  }

  /**
   * `Visit` as the script runs it on a plain object: for an inherited key not
   * yet stored, `!domainMap[host]` is false, no Set is created, and calling
   * `.add` on the inherited value throws (`None`).
   */
  function VisitAsWritten(g: Groups, o: Occurrence): (r: Option<Groups>)
    requires WellFormed(g)
    ensures r.Some? ==> WellFormed(r.value)
  {
    if Records(o) && o.resolved.value.host !in g.links && o.resolved.value.host in InheritedKeys then None
    else Some(Visited(g, o))
  }

  /** The scan as written: the first throw ends the script before anything is written. */
  function CollectAsWritten(occs: seq<Occurrence>): (r: Option<Groups>)
    ensures r.Some? ==> WellFormed(r.value)
  {
    if occs == [] then Some(Groups([], map[]))
    else
      match CollectAsWritten(occs[..|occs| - 1])
      case None => None
      case Some(g) => VisitAsWritten(g, occs[|occs| - 1])
  }

  /**
   * A link to `http://constructor/`, or to `x://toString/` with its opaque
   * host, ends the script, where a map keeps it like any other host.
   */
  lemma InheritedHostCrashes()
    ensures var o := Occurrence(Some("http://constructor/"), Some(Resolved("constructor", "http://constructor/")));
      && CollectAsWritten([o]) == None
      && Collect([o]).links == map["constructor" := ["http://constructor/"]]
    ensures var o := Occurrence(Some("x://toString/"), Some(Resolved("toString", "x://toString/")));
      && CollectAsWritten([o]) == None
      && Collect([o]).links == map["toString" := ["x://toString/"]]
  {
    var o := Occurrence(Some("http://constructor/"), Some(Resolved("constructor", "http://constructor/")));
    assert [o][..0] == [];
    var t := Occurrence(Some("x://toString/"), Some(Resolved("toString", "x://toString/")));
    assert [t][..0] == [];
  }

  /** Without such hosts the script as written and the map agree. */
  lemma {:induction false} AsWrittenAgrees(occs: seq<Occurrence>)
    requires forall k :: 0 <= k < |occs| && Records(occs[k]) ==> occs[k].resolved.value.host !in InheritedKeys
    ensures CollectAsWritten(occs) == Some(Collect(occs))
  {
    if occs != [] {
      var n := |occs| - 1;
      AsWrittenAgrees(occs[..n]);
    }
  }
}
