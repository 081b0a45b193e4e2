/**
 The traversal of `recursion` and `run` (update.js lines 195-292), as a sequential worklist.

 A work item is a raw reference and the pathname of the document it was found in. It is
 filtered, admitted when its URL has not been visited, fetched, and, for a text document,
 rewritten and scanned for further references. The JavaScript starts every child call
 without awaiting it, but each call filters and admits its URL before its first `await`,
 so the global parent it reads is the one its caller has just set; passing the parent
 with the item keeps that, and the set of visited URLs does not depend on the order in
 which the fetches complete. The site is a map from URL to body: a URL outside the map
 is one whose fetch fails.
 */
module Crawler {
  import opened Wrappers
  import opened JsString
  import opened Classify
  import opened UrlFilter
  import opened Rewrite
  import opened Extract

  /** A reference waiting to be visited, with the pathname of the document that holds it. */
  datatype WorkItem = WorkItem(ref: string, parentPath: Option<string>)

  /** The outcome of lines 201-209 for one work item. */
  datatype Admission = Rejected | AlreadyVisited | Admitted(url: string)

  /** The URL a work item stands for, if `filterUrl` accepts it. */
  function Target(item: WorkItem, protocol: string, host: string): Option<string> {
    FilterUrl(item.ref, item.parentPath, protocol, host)
  }

  /**
   Lines 241-280: the references a fetched document yields. A binary document yields none;
   a text document is rewritten by line 249 and scanned by the expression its file type picks.
   */
  function DocumentLinks(url: string, body: string, host: string): (r: seq<string>)
    ensures IsBinFile(url) ==> r == []
    ensures |r| <= |body|
  {
    if IsBinFile(url) then [] else LinksFor(FileType(url), StripHost(body, host))
  }

  /**
   A page whose body is `href="https://host/…"` yields the root-relative path: line 249
   removes the scheme and the host before the scan of lines 258-267 reads the attribute.
   */
  lemma AbsoluteLinkScannedRootRelative(url: string, host: string, path: string)
    requires '.' in url && FileType(url) == "html"
    requires |host| > 0 && QuotedValue(path, '"')
    requires NoMatchIn(HostScanner(host), "href=\"", "https://" + host + (path + "\""))
    requires !RegExpTest(path + "\"", "http://") && !RegExpTest(path + "\"", "https://")
    requires !RegExpTest(path + "\"", host)
    ensures DocumentLinks(url, "href=\"" + "https://" + host + (path + "\""), host) == [path]
  {
    RewriteAbsoluteLink("href=\"", host, path + "\"");
    HtmlPage(url);
    RenderedHref(path);
    HtmlLinksRender(Href, '"', path, "");
  }

  /** A URL with a dot and the file type `html` is a text document scanned for HTML links. */
  lemma HtmlPage(url: string)
    requires '.' in url && FileType(url) == "html"
    ensures !IsBinFile(url)
    ensures forall body, host :: DocumentLinks(url, body, host) == Links(HtmlLinks, StripHost(body, host))
  {
    assert FileType(url) == TextExtensions[0];
  }

  lemma RenderedHref(path: string)
    ensures "href=\"" + (path + "\"") == RenderAttribute(Href, '"', path) + ""
    ensures Links(HtmlLinks, "") == []
  {
  }

  /**
   `pre` followed by `https://host` and a tail is rewritten to `pre` and the tail, when no
   match starts inside `pre` and the tail holds nothing line 249 removes.
   */
  lemma RewriteAbsoluteLink(pre: string, host: string, tail: string)
    requires |host| > 0
    requires NoMatchIn(HostScanner(host), pre, "https://" + host + tail)
    requires !RegExpTest(tail, "http://") && !RegExpTest(tail, "https://") && !RegExpTest(tail, host)
    ensures StripHost(pre + "https://" + host + tail, host) == pre + tail
  {
    AbsoluteLinkBecomesRootRelative(pre, host, tail);
    StripHostUnchanged(tail, host);
  }

  /** A text document in which line 249 finds nothing to remove is scanned as fetched. */
  lemma UnchangedBodyScannedAsIs(url: string, body: string, host: string)
    requires !IsBinFile(url) && |host| > 0
    requires !RegExpTest(body, "http://") && !RegExpTest(body, "https://") && !RegExpTest(body, host)
    ensures DocumentLinks(url, body, host) == LinksFor(FileType(url), body)
  {
    StripHostUnchanged(body, host);
  }

  /** A work item for each reference, all found in the document with pathname `parentPath`. */
  function ItemsFor(links: seq<string>, parentPath: Option<string>): (r: seq<WorkItem>)
    ensures |r| == |links| && forall i :: 0 <= i < |r| ==> r[i] == WorkItem(links[i], parentPath)
  {
    seq(|links|, i requires 0 <= i < |links| => WorkItem(links[i], parentPath))
  }

  /** The work items for the references found in the document at `url`; none when its fetch fails. */
  function Children(site: map<string, string>, url: string, host: string): (r: seq<WorkItem>)
    ensures url !in site ==> r == []
    ensures url in site ==> |r| <= |site[url]|
    ensures forall i :: 0 <= i < |r| ==> r[i].parentPath == Some(Pathname(url))
  {
    if url !in site then []
    else ItemsFor(DocumentLinks(url, site[url], host), Some(Pathname(url)))
  }

  /**
   What the traversal depends on: the URLs whose fetch succeeds, the work items a fetched
   URL yields, and the URL a work item stands for.
   */
  datatype Web = Web(fetchable: set<string>, children: string -> seq<WorkItem>, target: WorkItem -> Option<string>)

  /** Only a fetched document yields work items. */
  ghost predicate ValidWeb(w: Web) {
    forall u :: u !in w.fetchable ==> w.children(u) == []
  }

  /** The web of a site under a configuration. */
  function SiteWeb(site: map<string, string>, protocol: string, host: string): (w: Web)
    ensures ValidWeb(w)
  {
    Web(site.Keys, u => Children(site, u, host), item => Target(item, protocol, host))
  }

  /** The URLs the items of `items` stand for. */
  function Targets(w: Web, items: seq<WorkItem>): (r: set<string>)
    ensures forall i :: 0 <= i < |items| && w.target(items[i]).Some? ==> w.target(items[i]).value in r
    ensures forall u :: u in r ==> exists i :: 0 <= i < |items| && w.target(items[i]) == Some(u)
  {
    set i | 0 <= i < |items| && w.target(items[i]).Some? :: w.target(items[i]).value
  }

  lemma TargetsAppend(w: Web, a: seq<WorkItem>, b: seq<WorkItem>)
    ensures Targets(w, a + b) == Targets(w, a) + Targets(w, b)
  {
    var ab := a + b;
    forall u | u in Targets(w, ab) ensures u in Targets(w, a) + Targets(w, b) {
      var i :| 0 <= i < |ab| && w.target(ab[i]) == Some(u);
      if i >= |a| {
        assert ab[i] == b[i - |a|];
      }
    }
    forall u | u in Targets(w, a) ensures u in Targets(w, ab) {
      var i :| 0 <= i < |a| && w.target(a[i]) == Some(u);
      assert ab[i] == a[i];
    }
    forall u | u in Targets(w, b) ensures u in Targets(w, ab) {
      var i :| 0 <= i < |b| && w.target(b[i]) == Some(u);
      assert ab[|a| + i] == b[i];
    }
  }

  lemma TargetsFirst(w: Web, items: seq<WorkItem>)
    requires |items| > 0
    ensures Targets(w, items) == Targets(w, items[1..]) + (match w.target(items[0]) case None => {} case Some(u) => {u})
  {
    assert items == [items[0]] + items[1..];
    TargetsAppend(w, [items[0]], items[1..]);
  }

  /**
   A set of URLs is closed when it holds every URL that a document of its own links to:
   nothing the crawler could still reach from it is missing.
   */
  predicate Closed(w: Web, s: set<string>) {
    forall u :: u in s ==> Targets(w, w.children(u)) <= s
  }

  /** The URLs any crawl from `seeds` can ever admit: a finite set, which bounds the loop. */
  ghost function Candidates(w: Web, seeds: seq<WorkItem>): set<string> {
    Targets(w, seeds) + set u, x | u in w.fetchable && x in Targets(w, w.children(u)) :: x
  }

  /** The targets of a document's links are candidates. */
  lemma ChildrenInCandidates(w: Web, seeds: seq<WorkItem>, u: string)
    requires ValidWeb(w)
    ensures Targets(w, w.children(u)) <= Candidates(w, seeds)
  {
    if u !in w.fetchable {
      assert w.children(u) == [];
    }
  }

  /**
   Lines 201-209: a rejected reference ends the call, and so does a URL already in the
   visited set; any other URL is recorded and fetched.
   */
  function Admit(w: Web, visited: set<string>, item: WorkItem): (r: Admission)
    ensures r.Admitted? <==> w.target(item).Some? && w.target(item).value !in visited
    ensures r.Admitted? ==> w.target(item) == Some(r.url)
    ensures r.Rejected? <==> w.target(item).None?
  {
    match w.target(item)
    case None => Rejected
    case Some(u) => if u in visited then AlreadyVisited else Admitted(u)
  }

  /**
   What the worklist keeps between two steps: every URL visited or pending is a candidate;
   the seeds' targets are visited or pending; so are the targets of every visited document's
   links; and every closed set holding the seeds' targets holds all of them.
   */
  ghost predicate Frontier(w: Web, seeds: seq<WorkItem>, visited: set<string>, work: seq<WorkItem>) {
    var reached := visited + Targets(w, work);
    && reached <= Candidates(w, seeds)
    && Targets(w, seeds) <= reached
    && (forall u :: u in visited ==> Targets(w, w.children(u)) <= reached)
    && (forall s :: Closed(w, s) && Targets(w, seeds) <= s ==> reached <= s)
  }

  lemma FrontierStart(w: Web, seeds: seq<WorkItem>)
    ensures Frontier(w, seeds, {}, seeds)
  {
    assert {} + Targets(w, seeds) == Targets(w, seeds);
  }

  /** Admitting the first item's URL and queueing its document's items keeps the frontier. */
  lemma FrontierAdmit(w: Web, seeds: seq<WorkItem>, visited: set<string>, work: seq<WorkItem>, u: string)
    requires ValidWeb(w) && Frontier(w, seeds, visited, work)
    requires |work| > 0 && w.target(work[0]) == Some(u) && u !in visited
    ensures Frontier(w, seeds, visited + {u}, work[1..] + w.children(u))
    ensures u in Candidates(w, seeds) - visited
  {
    var rest := work[1..];
    var kids := w.children(u);
    TargetsFirst(w, work);
    TargetsAppend(w, rest, kids);
    ChildrenInCandidates(w, seeds, u);
    var before := visited + Targets(w, work);
    var after := visited + {u} + Targets(w, rest + kids);
    assert after == before + Targets(w, kids);
    forall s | Closed(w, s) && Targets(w, seeds) <= s ensures after <= s {
      assert before <= s;
      assert Targets(w, kids) <= s;
    }
  }

  /** Dropping a first item that is rejected or already visited keeps the frontier. */
  lemma FrontierSkip(w: Web, seeds: seq<WorkItem>, visited: set<string>, work: seq<WorkItem>)
    requires Frontier(w, seeds, visited, work)
    requires |work| > 0 && (w.target(work[0]).None? || w.target(work[0]).value in visited)
    ensures Frontier(w, seeds, visited, work[1..])
  {
    TargetsFirst(w, work);
    assert visited + Targets(w, work[1..]) == visited + Targets(w, work);
  }

  /** Once nothing is pending, the visited set is the least closed set holding the seeds' targets. */
  lemma FrontierDone(w: Web, seeds: seq<WorkItem>, visited: set<string>)
    requires Frontier(w, seeds, visited, [])
    ensures Targets(w, seeds) <= visited
    ensures Closed(w, visited)
    ensures forall s :: Closed(w, s) && Targets(w, seeds) <= s ==> visited <= s
  {
    assert visited + Targets(w, []) == visited;
  }

  /**
   The least closed set holding the seeds' targets holds nothing else: each of its URLs is
   a seed's target or the target of a link in one of its own documents.
   */
  lemma LeastIsReached(w: Web, seeds: seq<WorkItem>, visited: set<string>)
    requires Targets(w, seeds) <= visited && Closed(w, visited)
    requires forall s :: Closed(w, s) && Targets(w, seeds) <= s ==> visited <= s
    ensures forall u :: u in visited ==>
      u in Targets(w, seeds) || exists v :: v in visited && u in Targets(w, w.children(v))
  {
    var r := set u | u in visited && (u in Targets(w, seeds) || exists v :: v in visited && u in Targets(w, w.children(v)));
    forall u | u in r ensures Targets(w, w.children(u)) <= r {
      forall x | x in Targets(w, w.children(u)) ensures x in r {
        assert x in visited;
      }
    }
    assert Closed(w, r);
  }

  /** `fetched` lists the visited URLs, each once. */
  ghost predicate FetchLog(visited: set<string>, fetched: seq<string>) {
    && (forall i, j :: 0 <= i < j < |fetched| ==> fetched[i] != fetched[j])
    && (forall u :: u in visited <==> u in fetched)
  }

  lemma FetchLogAppend(visited: set<string>, fetched: seq<string>, u: string)
    requires FetchLog(visited, fetched) && u !in visited
    ensures FetchLog(visited + {u}, fetched + [u])
  {
    var f := fetched + [u];
    forall i, j | 0 <= i < j < |f| ensures f[i] != f[j] {
      if j == |fetched| {
        assert fetched[i] in fetched;
      }
    }
  }

  /** One admission: the log and the frontier are kept, and fewer candidates remain unvisited. */
  lemma CrawlStep(w: Web, seeds: seq<WorkItem>, visited: set<string>, fetched: seq<string>, work: seq<WorkItem>, u: string)
    requires ValidWeb(w) && FetchLog(visited, fetched) && Frontier(w, seeds, visited, work)
    requires |work| > 0 && w.target(work[0]) == Some(u) && u !in visited
    ensures FetchLog(visited + {u}, fetched + [u])
    ensures Frontier(w, seeds, visited + {u}, work[1..] + w.children(u))
    ensures |Candidates(w, seeds) - (visited + {u})| < |Candidates(w, seeds) - visited|
  {
    FrontierAdmit(w, seeds, visited, work, u);
    FetchLogAppend(visited, fetched, u);
    assert Candidates(w, seeds) - (visited + {u}) < Candidates(w, seeds) - visited;
  }

  /**
   The crawl: every URL is fetched at most once, in the order of `fetched`; the visited URLs
   hold the targets of the seeds and are closed under the links of their documents, and they
   are the least such set: every closed set that holds the seeds' targets holds them all.
   */
  method Crawl(w: Web, seeds: seq<WorkItem>) returns (visited: set<string>, fetched: seq<string>)
    requires ValidWeb(w)
    ensures forall i, j :: 0 <= i < j < |fetched| ==> fetched[i] != fetched[j]
    ensures forall u :: u in visited <==> u in fetched
    ensures Targets(w, seeds) <= visited
    ensures Closed(w, visited)
    ensures forall s :: Closed(w, s) && Targets(w, seeds) <= s ==> visited <= s
  {
    visited, fetched := {}, [];
    var work := seeds;
    FrontierStart(w, seeds);
    while |work| > 0
      invariant FetchLog(visited, fetched)
      invariant Frontier(w, seeds, visited, work)
      decreases |Candidates(w, seeds) - visited|, |work|
    {
      var item := work[0];
      match Admit(w, visited, item)
      case Admitted(u) =>
        CrawlStep(w, seeds, visited, fetched, work, u);
        visited, fetched := visited + {u}, fetched + [u];
        work := work[1..] + w.children(u);
      case _ =>
        FrontierSkip(w, seeds, visited, work);
        work := work[1..];
    }
    FrontierDone(w, seeds, visited);
  }

  /**
   `run` (lines 283-292): the root `/` first, then the configured extra URLs, none with a
   parent document.
   */
  function Seeds(otherUrls: seq<string>): (r: seq<WorkItem>)
    ensures |r| == |otherUrls| + 1 && r[0] == WorkItem("/", None)
    ensures forall i :: 0 <= i < |otherUrls| ==> r[i + 1] == WorkItem(otherUrls[i], None)
  {
    [WorkItem("/", None)] + seq(|otherUrls|, i requires 0 <= i < |otherUrls| => WorkItem(otherUrls[i], None))
  }

  /**
   `run`: the URLs the crawler fetches, each once. They include the site's `index.html` and
   every configured extra URL the filter accepts, and no document among them links to an
   accepted URL outside them. Nothing else is fetched: every fetched URL is the target of
   one of `run`'s own references or of a link in a fetched document.
   */
  method Run(site: map<string, string>, otherUrls: seq<string>, protocol: string, host: string)
    returns (visited: set<string>, fetched: seq<string>)
    ensures forall i, j :: 0 <= i < j < |fetched| ==> fetched[i] != fetched[j]
    ensures forall u :: u in visited <==> u in fetched
    ensures SiteUrl(protocol, host, "/index.html") in visited
    ensures forall i :: 0 <= i < |otherUrls| && FilterUrl(otherUrls[i], None, protocol, host).Some? ==>
      FilterUrl(otherUrls[i], None, protocol, host).value in visited
    ensures forall u, i ::
      (u in visited && u in site && 0 <= i < |DocumentLinks(u, site[u], host)|
       && FilterUrl(DocumentLinks(u, site[u], host)[i], Some(Pathname(u)), protocol, host).Some?) ==>
      FilterUrl(DocumentLinks(u, site[u], host)[i], Some(Pathname(u)), protocol, host).value in visited
    ensures var w := SiteWeb(site, protocol, host);
      forall u :: u in visited ==>
        u in Targets(w, Seeds(otherUrls)) || exists v :: v in visited && u in Targets(w, w.children(v))
  {
    var w := SiteWeb(site, protocol, host);
    var seeds := Seeds(otherUrls);
    visited, fetched := Crawl(w, seeds);
    LeastIsReached(w, seeds, visited);
    RunStartsVisited(site, otherUrls, protocol, host, visited);
    RunLinksVisited(site, protocol, host, visited);
  }

  /** A set holding the targets of `run`'s references holds the site's `index.html` and every accepted extra URL. */
  lemma RunStartsVisited(site: map<string, string>, otherUrls: seq<string>, protocol: string, host: string, visited: set<string>)
    requires Targets(SiteWeb(site, protocol, host), Seeds(otherUrls)) <= visited
    ensures SiteUrl(protocol, host, "/index.html") in visited
    ensures forall i :: 0 <= i < |otherUrls| && FilterUrl(otherUrls[i], None, protocol, host).Some? ==>
      FilterUrl(otherUrls[i], None, protocol, host).value in visited
  {
    var w := SiteWeb(site, protocol, host);
    var seeds := Seeds(otherUrls);
    assert Target(seeds[0], protocol, host) == Some(SiteUrl(protocol, host, "/index.html")) by {
      RootSeed(protocol, host);
    }
    assert w.target(seeds[0]) == Target(seeds[0], protocol, host);
    forall i | 0 <= i < |otherUrls| && FilterUrl(otherUrls[i], None, protocol, host).Some?
      ensures FilterUrl(otherUrls[i], None, protocol, host).value in visited
    {
      assert w.target(seeds[i + 1]) == FilterUrl(otherUrls[i], None, protocol, host);
    }
  }

  /** A closed set of the site's web holds every accepted link of its own documents. */
  lemma RunLinksVisited(site: map<string, string>, protocol: string, host: string, visited: set<string>)
    requires Closed(SiteWeb(site, protocol, host), visited)
    ensures forall u, i ::
      (u in visited && u in site && 0 <= i < |DocumentLinks(u, site[u], host)|
       && FilterUrl(DocumentLinks(u, site[u], host)[i], Some(Pathname(u)), protocol, host).Some?) ==>
      FilterUrl(DocumentLinks(u, site[u], host)[i], Some(Pathname(u)), protocol, host).value in visited
  {
    var w := SiteWeb(site, protocol, host);
    forall u, i | u in visited && u in site && 0 <= i < |DocumentLinks(u, site[u], host)|
      && FilterUrl(DocumentLinks(u, site[u], host)[i], Some(Pathname(u)), protocol, host).Some?
      ensures FilterUrl(DocumentLinks(u, site[u], host)[i], Some(Pathname(u)), protocol, host).value in visited
    {
      var items := w.children(u);
      assert items[i] == WorkItem(DocumentLinks(u, site[u], host)[i], Some(Pathname(u)));
      assert w.target(items[i]) == FilterUrl(DocumentLinks(u, site[u], host)[i], Some(Pathname(u)), protocol, host);
    }
  }

  /** The default reference `/` stands for the site's `index.html`. */
  lemma RootSeed(protocol: string, host: string)
    ensures FilterUrl("/", None, protocol, host) == Some(SiteUrl(protocol, host, "/index.html"))
  {
    var u := WithDefaultDocument("/");
    RootDocument(u);
    FilterAppendsDefaultFirst("/", None, protocol, host);
    FilterRootRelative(u, None, protocol, host);
  }

  lemma RootDocument(u: string)
    requires u == WithDefaultDocument("/")
    ensures u == "/index.html" && HasExtension(u) && '?' !in u
    ensures StartsWith(u, "/") && !StartsWith(u, "//")
  {
    assert !HasExtension("/") by {
      assert TrailingWordChars("/") == 0;
    }
    assert EndsWith("/", "/");
    assert u == "/" + DefaultDocument;
    DefaultDocumentKeepsQuery("/");
    IndexIsRootRelative(u);
  }

  lemma IndexIsRootRelative(u: string)
    requires u == "/index.html"
    ensures StartsWith(u, "/") && !StartsWith(u, "//")
  {
    assert u[..1] == "/" && u[1] == 'i';
  }
}
