/** The crawl driver (global_tech.py:11-48, 143): the header row, the
    `while True` loop over listing pages whose only normal exit is a failed
    page fetch, the listing rows read into three parallel lists, and one
    row appended to the CSV sink per visited talk, in visit order. */
module Crawl {
  import opened Wrappers
  import opened Strings
  import opened Detail

  /** One listing row: the title link's text, the speaker heading's text
      and the thumbnail link's `href`; `None` where `find_element` raises. */
  datatype ListingRow = ListingRow(title: Option<string>, speaker: Option<string>, href: Option<string>)

  /** The site as the browser sees it. `pages[p - 1]` is the outcome of
      loading listing page `p` (`None`: `driver.get` raises); every page
      past the end fails. `talks` maps a talk URL to its detail page; a URL
      outside it fails to load. */
  datatype Site = Site(pages: seq<Option<seq<ListingRow>>>, talks: map<string, DetailPage>)

  function FetchListing(site: Site, p: int): (r: Option<seq<ListingRow>>)
    ensures r.Some? ==> 1 <= p <= |site.pages|
    ensures p > |site.pages| ==> r.None?
  {
    if 1 <= p <= |site.pages| then site.pages[p - 1] else None
  }

  /** One element of `zip(titles, speakers, video_urls)`. */
  datatype Candidate = Candidate(title: string, speaker: string, url: string)

  predicate Complete(row: ListingRow)
  {
    row.title.Some? && row.speaker.Some? && row.href.Some?
  }

  /** The candidates of a listing page; `None` when some row lacks an
      element, since that exception leaves the loop and ends the run. */
  function Candidates(rows: seq<ListingRow>): (r: Option<seq<Candidate>>)
    ensures r.Some? <==> forall i :: 0 <= i < |rows| ==> Complete(rows[i])
    ensures r.Some? ==> |r.value| == |rows|
    ensures r.Some? ==> forall i :: 0 <= i < |rows| ==>
              r.value[i] == Candidate(rows[i].title.value, rows[i].speaker.value, rows[i].href.value)
  {
    if rows == [] then Some([])
    else if !Complete(rows[0]) then None
    else
      match Candidates(rows[1..])
      case None => None
      case Some(rest) =>
        Some([Candidate(rows[0].title.value, rows[0].speaker.value, rows[0].href.value)] + rest)
  }

  /** Python's `zip` of three lists: as long as the shortest. */
  function Zip3(titles: seq<string>, speakers: seq<string>, urls: seq<string>): (r: seq<Candidate>)
    ensures |r| <= |titles| && |r| <= |speakers| && |r| <= |urls|
    ensures |r| == |titles| || |r| == |speakers| || |r| == |urls|
    ensures forall i :: 0 <= i < |r| ==> r[i] == Candidate(titles[i], speakers[i], urls[i])
  {
    if titles == [] || speakers == [] || urls == [] then []
    else [Candidate(titles[0], speakers[0], urls[0])] + Zip3(titles[1..], speakers[1..], urls[1..])
  }

  /** A talk whose detail page loaded: the listing candidate and the page
      the browser showed for its URL. */
  datatype Visited = Visited(talk: Candidate, page: DetailPage)

  /** The CSV row written for a visited talk (global_tech.py:131-143). */
  function RowOfVisit(v: Visited): Line
  {
    RowOf(Record(v.talk.title, v.talk.speaker, ExtractDetails(v.page), v.talk.url))
  }

  /** The rows written for visited talks, in visit order. */
  function Lines(vs: seq<Visited>): (lines: seq<Line>)
    ensures |lines| == |vs|
  {
    seq(|vs|, i requires 0 <= i < |vs| => RowOfVisit(vs[i]))
  }

  lemma LinesAt(vs: seq<Visited>, i: nat)
    requires i < |vs|
    ensures Lines(vs)[i] == RowOfVisit(vs[i])
  {
  }

  lemma LinesAppend(a: seq<Visited>, b: seq<Visited>)
    ensures Lines(a + b) == Lines(a) + Lines(b)
  {
    forall i | 0 <= i < |a + b|
      ensures Lines(a + b)[i] == (Lines(a) + Lines(b))[i]
    {
      LinesAt(a + b, i);
      if i < |a| {
        LinesAt(a, i);
        assert (a + b)[i] == a[i];
      } else {
        LinesAt(b, i - |a|);
        assert (a + b)[i] == b[i - |a|];
      }
    }
  }

  /** The talks visited from a run of candidates, and the URL whose load
      failed, if one did. */
  datatype Visit = Visit(visited: seq<Visited>, failed: Option<string>)

  /** Visit candidates in order; a detail page that does not load
      (global_tech.py:48, outside any `try`) ends the run. */
  function VisitAll(site: Site, cs: seq<Candidate>): (r: Visit)
    ensures |r.visited| <= |cs|
    ensures r.failed.None? <==> |r.visited| == |cs|
    ensures r.failed.Some? ==> r.failed.value !in site.talks
  {
    if cs == [] then Visit([], None)
    else if cs[0].url !in site.talks then Visit([], Some(cs[0].url))
    else
      var rest := VisitAll(site, cs[1..]);
      Visit([Visited(cs[0], site.talks[cs[0].url])] + rest.visited, rest.failed)
  }

  /** One step of `VisitAll` at position `i`. */
  lemma VisitAllAt(site: Site, cs: seq<Candidate>, i: nat)
    requires i < |cs|
    ensures cs[i].url !in site.talks ==> VisitAll(site, cs[i..]) == Visit([], Some(cs[i].url))
    ensures cs[i].url in site.talks ==>
              VisitAll(site, cs[i..]) == Visit([Visited(cs[i], site.talks[cs[i].url])] + VisitAll(site, cs[i + 1..]).visited,
                                               VisitAll(site, cs[i + 1..]).failed)
  {
    assert cs[i..][0] == cs[i] && cs[i..][1..] == cs[i + 1..];
  }

  /** Why the run ended: the loop's `break`, or an exception escaping it. */
  datatype Stop = ListingFetchFailed | ListingRowIncomplete | DetailFetchFailed(url: string)

  /** The rows one loaded listing page produces, and whether the run
      ends on it. */
  datatype PageOutcome = PageOutcome(visited: seq<Visited>, stop: Option<Stop>)

  /** A loaded listing page: its rows are read (a row lacking an element
      ends the run before any talk is visited), then its talks are visited
      in listing order. */
  function ProcessListing(site: Site, rows: seq<ListingRow>): (r: PageOutcome)
    ensures r.stop != Some(ListingFetchFailed)
    ensures r.stop == Some(ListingRowIncomplete) ==> r.visited == []
    ensures |r.visited| <= |rows|
    ensures r.stop.None? ==> |r.visited| == |rows|
  {
    match Candidates(rows)
    case None => PageOutcome([], Some(ListingRowIncomplete))
    case Some(cs) =>
      var v := VisitAll(site, cs);
      PageOutcome(v.visited, if v.failed.Some? then Some(DetailFetchFailed(v.failed.value)) else None)
  }

  /** The talks whose rows follow the header, why the run ended, and on
      which listing page. */
  datatype CrawlResult = CrawlResult(visited: seq<Visited>, stop: Stop, lastPage: nat)

  /** The crawl from listing page `p` on. */
  function CrawlFrom(site: Site, p: nat): (r: CrawlResult)
    requires p >= 1
    ensures p <= r.lastPage
    ensures p <= |site.pages| + 1 ==> r.lastPage <= |site.pages| + 1
    ensures r.stop == ListingFetchFailed <==> FetchListing(site, r.lastPage).None?
    decreases |site.pages| + 1 - p
  {
    match FetchListing(site, p)
    case None => CrawlResult([], ListingFetchFailed, p)
    case Some(rows) =>
      var here := ProcessListing(site, rows);
      if here.stop.Some? then CrawlResult(here.visited, here.stop.value, p)
      else
        var rest := CrawlFrom(site, p + 1);
        CrawlResult(here.visited + rest.visited, rest.stop, rest.lastPage)
  }

  /** A listing page that loads and does not end the run contributes its
      rows, and the crawl goes on with the next page. */
  lemma CrawlFromContinues(site: Site, p: nat)
    requires p >= 1 && FetchListing(site, p).Some?
    requires ProcessListing(site, FetchListing(site, p).value).stop.None?
    ensures CrawlFrom(site, p).visited
            == ProcessListing(site, FetchListing(site, p).value).visited + CrawlFrom(site, p + 1).visited
    ensures CrawlFrom(site, p).stop == CrawlFrom(site, p + 1).stop
    ensures CrawlFrom(site, p).lastPage == CrawlFrom(site, p + 1).lastPage
  {
  }

  /** A listing page that fails to load ends the run with no rows. */
  lemma CrawlFromFetchFails(site: Site, p: nat)
    requires p >= 1 && FetchListing(site, p).None?
    ensures CrawlFrom(site, p).visited == []
    ensures CrawlFrom(site, p).stop == ListingFetchFailed
    ensures CrawlFrom(site, p).lastPage == p
  {
  }

  /** A listing page that loads and ends the run contributes its rows and
      is the last page. */
  lemma CrawlFromEndsOn(site: Site, p: nat)
    requires p >= 1 && FetchListing(site, p).Some?
    requires ProcessListing(site, FetchListing(site, p).value).stop.Some?
    ensures CrawlFrom(site, p).visited == ProcessListing(site, FetchListing(site, p).value).visited
    ensures CrawlFrom(site, p).stop == ProcessListing(site, FetchListing(site, p).value).stop.value
    ensures CrawlFrom(site, p).lastPage == p
  {
  }

  /** The whole run, from listing page 1. */
  function Crawl(site: Site): (r: CrawlResult)
    ensures 1 <= r.lastPage <= |site.pages| + 1
    ensures r.stop == ListingFetchFailed <==> FetchListing(site, r.lastPage).None?
  {
    CrawlFrom(site, 1)
  }

  /** The page counter `p` when the run ends: incremented after each
      listing page that loads (global_tech.py:21), so it is the failed
      page on a `break` and one past the page being processed otherwise. */
  function FinalCounter(r: CrawlResult): (c: nat)
    ensures r.lastPage <= c <= r.lastPage + 1
    ensures c == r.lastPage <==> r.stop == ListingFetchFailed
  {
    if r.stop == ListingFetchFailed then r.lastPage else r.lastPage + 1
  }

  // ---------------------------------------------------------------------
  // Properties of the crawl

  /** What visiting a run of candidates does: the first `n` candidates
      load and are visited in order; the visits stop at the first URL that
      does not load, which is the failure reported. */
  lemma {:induction false} VisitAllMeaning(site: Site, cs: seq<Candidate>)
    ensures |VisitAll(site, cs).visited| <= |cs|
    ensures forall i :: 0 <= i < |VisitAll(site, cs).visited| ==>
              cs[i].url in site.talks && VisitAll(site, cs).visited[i] == Visited(cs[i], site.talks[cs[i].url])
    ensures VisitAll(site, cs).failed.None? <==> |VisitAll(site, cs).visited| == |cs|
    ensures VisitAll(site, cs).failed.Some? ==>
              cs[|VisitAll(site, cs).visited|].url !in site.talks
              && VisitAll(site, cs).failed.value == cs[|VisitAll(site, cs).visited|].url
  {
    if cs != [] && cs[0].url in site.talks {
      VisitAllMeaning(site, cs[1..]);
      var rest := VisitAll(site, cs[1..]).visited;
      assert VisitAll(site, cs).visited == [Visited(cs[0], site.talks[cs[0].url])] + rest;
      forall i | 0 <= i < |VisitAll(site, cs).visited|
        ensures cs[i].url in site.talks && VisitAll(site, cs).visited[i] == Visited(cs[i], site.talks[cs[i].url])
      {
        if i > 0 {
          assert cs[i] == cs[1..][i - 1];
        }
      }
    }
  }

  /** The rows a loaded listing page contributes: on a page whose rows
      are all complete, one visit per listing row in listing order, up to
      the first talk that fails to load, whose URL is the one reported. */
  lemma ListingMeaning(site: Site, rows: seq<ListingRow>)
    ensures ProcessListing(site, rows).stop == Some(ListingRowIncomplete)
            <==> exists i :: 0 <= i < |rows| && !Complete(rows[i])
    ensures ProcessListing(site, rows).stop == Some(ListingRowIncomplete) ==> ProcessListing(site, rows).visited == []
    ensures ProcessListing(site, rows).stop.None? ==>
              |ProcessListing(site, rows).visited| == |rows|
              && forall i :: 0 <= i < |rows| ==>
                   rows[i].href.value in site.talks
                   && ProcessListing(site, rows).visited[i].talk
                      == Candidate(rows[i].title.value, rows[i].speaker.value, rows[i].href.value)
                   && ProcessListing(site, rows).visited[i].page == site.talks[rows[i].href.value]
    ensures ProcessListing(site, rows).stop.Some? && ProcessListing(site, rows).stop.value.DetailFetchFailed? ==>
              var n := |ProcessListing(site, rows).visited|;
              n < |rows|
              && (forall i :: 0 <= i < |rows| ==> Complete(rows[i]))
              && rows[n].href.value !in site.talks
              && ProcessListing(site, rows).stop.value.url == rows[n].href.value
              && forall i :: 0 <= i < n ==>
                   rows[i].href.value in site.talks
                   && ProcessListing(site, rows).visited[i].talk
                      == Candidate(rows[i].title.value, rows[i].speaker.value, rows[i].href.value)
                   && ProcessListing(site, rows).visited[i].page == site.talks[rows[i].href.value]
  {
    if Candidates(rows).Some? {
      VisitAllMeaning(site, Candidates(rows).value);
    }
  }

  /** The pages a crawl from `p` fetched before its last page all loaded
      and were processed to the end; on the last page either the fetch
      failed or processing stopped, for the reason the crawl reports. */
  lemma {:induction false} CrawlFromStops(site: Site, p: nat)
    requires 1 <= p <= |site.pages| + 1
    ensures p <= CrawlFrom(site, p).lastPage <= |site.pages| + 1
    ensures forall q :: p <= q < CrawlFrom(site, p).lastPage ==>
              FetchListing(site, q).Some? && ProcessListing(site, FetchListing(site, q).value).stop.None?
    ensures CrawlFrom(site, p).stop == ListingFetchFailed <==> FetchListing(site, CrawlFrom(site, p).lastPage).None?
    ensures CrawlFrom(site, p).stop != ListingFetchFailed ==>
              ProcessListing(site, FetchListing(site, CrawlFrom(site, p).lastPage).value).stop
              == Some(CrawlFrom(site, p).stop)
    decreases |site.pages| + 1 - p
  {
    match FetchListing(site, p)
    case None =>
    case Some(rows) =>
      if ProcessListing(site, rows).stop.None? {
        CrawlFromStops(site, p + 1);
      }
  }

  /** The talks of listing page `k` that were visited; none when the page
      does not load. */
  function PageVisited(site: Site, k: int): seq<Visited>
  {
    match FetchListing(site, k)
    case None => []
    case Some(rows) => ProcessListing(site, rows).visited
  }

  /** The talks of listing pages `p` to `q - 1`, in page order. */
  function VisitedThrough(site: Site, p: int, q: int): seq<Visited>
    requires p <= q
    decreases q - p
  {
    if p == q then [] else PageVisited(site, p) + VisitedThrough(site, p + 1, q)
  }

  /** The crawl's rows are the pages' rows, pasted in page order from the
      first page to the last one fetched. */
  lemma {:induction false} CrawlFromGathersPages(site: Site, p: nat)
    requires p >= 1
    ensures p <= CrawlFrom(site, p).lastPage
    ensures CrawlFrom(site, p).visited == VisitedThrough(site, p, CrawlFrom(site, p).lastPage + 1)
    decreases |site.pages| + 1 - p
  {
    var last := CrawlFrom(site, p).lastPage;
    match FetchListing(site, p)
    case None =>
      assert VisitedThrough(site, p + 1, p + 1) == [];
      assert VisitedThrough(site, p, p + 1) == [] + [];
    case Some(rows) =>
      var here := ProcessListing(site, rows);
      if here.stop.Some? {
        assert VisitedThrough(site, p + 1, p + 1) == [];
        assert VisitedThrough(site, p, p + 1) == here.visited + [];
      } else {
        CrawlFromGathersPages(site, p + 1);
        assert VisitedThrough(site, p, last + 1) == here.visited + VisitedThrough(site, p + 1, last + 1);
      }
  }

  /** The crawl never reads past its last page: any site that agrees on
      the talks and on listing pages `p` to the last one fetched crawls the
      same way. */
  lemma {:induction false} CrawlIgnoresLaterPages(site: Site, other: Site, p: nat)
    requires p >= 1
    requires other.talks == site.talks
    requires forall q :: p <= q <= CrawlFrom(site, p).lastPage ==> FetchListing(other, q) == FetchListing(site, q)
    ensures CrawlFrom(other, p) == CrawlFrom(site, p)
    decreases |site.pages| + 1 - p
  {
    CrawlFromGathersPages(site, p);
    assert FetchListing(other, p) == FetchListing(site, p);
    match FetchListing(site, p)
    case None =>
    case Some(rows) =>
      assert ProcessListing(other, rows) == ProcessListing(site, rows) by {
        ProcessListingSameTalks(site, other, rows);
      }
      if ProcessListing(site, rows).stop.None? {
        CrawlIgnoresLaterPages(site, other, p + 1);
      }
  }

  /** Visiting candidates depends on the site's talks only. */
  lemma {:induction false} VisitAllSameTalks(site: Site, other: Site, cs: seq<Candidate>)
    requires other.talks == site.talks
    ensures VisitAll(other, cs) == VisitAll(site, cs)
  {
    if cs != [] {
      VisitAllSameTalks(site, other, cs[1..]);
    }
  }

  /** A loaded listing page's outcome depends on the site's talks only. */
  lemma ProcessListingSameTalks(site: Site, other: Site, rows: seq<ListingRow>)
    requires other.talks == site.talks
    ensures ProcessListing(other, rows) == ProcessListing(site, rows)
  {
    if Candidates(rows).Some? {
      VisitAllSameTalks(site, other, Candidates(rows).value);
    }
  }

  /** An empty listing page does not end the loop: it contributes nothing
      and the crawl goes on with the next page. */
  lemma EmptyListingContinues(site: Site, p: nat)
    requires p >= 1 && FetchListing(site, p) == Some([])
    ensures CrawlFrom(site, p) == CrawlFrom(site, p + 1)
  {
    assert Candidates([]) == Some([]);
    assert ProcessListing(site, []) == PageOutcome([], None);
    assert [] + CrawlFrom(site, p + 1).visited == CrawlFrom(site, p + 1).visited;
  }

  /** The final counter is one more than the number of listing pages whose
      fetch succeeded. */
  lemma FinalCounterCountsLoads(site: Site)
    ensures forall q :: 1 <= q < Crawl(site).lastPage ==> FetchListing(site, q).Some?
    ensures FinalCounter(Crawl(site)) - 1
            == Crawl(site).lastPage - 1 + (if FetchListing(site, Crawl(site).lastPage).Some? then 1 else 0)
  {
    CrawlFromStops(site, 1);
  }

  /** Every written row has the header's ten cells, each holding that
      column's value of the visited talk. */
  lemma LinesFollowHeader(vs: seq<Visited>, i: nat)
    requires i < |vs|
    ensures |Lines(vs)[i]| == |HeaderLine|
    ensures forall k :: 0 <= k < |Order| ==>
              Lines(vs)[i][k] == Value(Record(vs[i].talk.title, vs[i].talk.speaker, ExtractDetails(vs[i].page), vs[i].talk.url), Order[k])
  {
    RowFollowsHeader(Record(vs[i].talk.title, vs[i].talk.speaker, ExtractDetails(vs[i].page), vs[i].talk.url));
  }

  /** A site with one listing page of one talk, whose second listing page
      fails to load: the talk's row is written, the loop breaks on page 2
      and the counter is left at 2. */
  lemma OnePageExample(site: Site, title: string, speaker: string, url: string, page: DetailPage)
    requires site == Site([Some([ListingRow(Some(title), Some(speaker), Some(url))]), None], map[url := page])
    ensures Crawl(site).visited == [Visited(Candidate(title, speaker, url), page)]
    ensures Crawl(site).stop == ListingFetchFailed
    ensures FinalCounter(Crawl(site)) == 2
  {
    var row := ListingRow(Some(title), Some(speaker), Some(url));
    var c := Candidate(title, speaker, url);
    assert Candidates([row]) == Some([c]) by {
      assert [row][1..] == [];
      assert Candidates([]) == Some([]);
      assert [c] + [] == [c];
    }
    assert VisitAll(site, [c]) == Visit([Visited(c, page)], None) by {
      assert [c][1..] == [];
    }
    assert CrawlFrom(site, 2) == CrawlResult([], ListingFetchFailed, 2);
    assert [Visited(c, page)] + [] == [Visited(c, page)];
  }

  /** A listing row without a speaker ends the run before any talk of its
      page is visited; the counter has already moved past the page. */
  lemma IncompleteRowExample(site: Site, title: string, url: string)
    requires site.pages == [Some([ListingRow(Some(title), None, Some(url))])]
    ensures Crawl(site).visited == []
    ensures Crawl(site).stop == ListingRowIncomplete
    ensures FinalCounter(Crawl(site)) == 2
  {
    var row := ListingRow(Some(title), None, Some(url));
    assert !Complete(row);
    assert Candidates([row]).None?;
  }

  /** A talk whose detail page does not load ends the run: the talks
      listed before it keep their rows, the ones after it are never
      visited. */
  lemma MissingTalkExample(site: Site, first: Candidate, second: Candidate, page: DetailPage)
    requires first.url != second.url
    requires site == Site([Some([ListingRow(Some(first.title), Some(first.speaker), Some(first.url)),
                                 ListingRow(Some(second.title), Some(second.speaker), Some(second.url))])],
                          map[first.url := page])
    ensures Crawl(site).visited == [Visited(first, page)]
    ensures Crawl(site).stop == DetailFetchFailed(second.url)
    ensures FinalCounter(Crawl(site)) == 2
  {
    var rows := site.pages[0].value;
    assert Candidates(rows[1..][1..]) == Some([]) by {
      assert rows[1..][1..] == [];
    }
    assert rows[1..][0] == rows[1] && Complete(rows[1]);
    assert Candidate(rows[1].title.value, rows[1].speaker.value, rows[1].href.value) == second;
    assert Candidates(rows[1..]) == Some([second] + []);
    assert Complete(rows[0]);
    assert Candidate(rows[0].title.value, rows[0].speaker.value, rows[0].href.value) == first;
    assert [second] + [] == [second];
    assert [first] + [second] == [first, second];
    assert Candidates(rows) == Some([first, second]);
    assert VisitAll(site, [first, second][1..]) == Visit([], Some(second.url)) by {
      assert [first, second][1..] == [second];
    }
    assert VisitAll(site, [first, second]) == Visit([Visited(first, page)] + [], Some(second.url));
  }

  // ---------------------------------------------------------------------
  // The imperative driver

  /** The CSV writer: rows are only ever appended. */
  class CsvSink {
    var rows: seq<Line>

    constructor ()
      ensures rows == []
    {
      rows := [];
    }

    method WriteRow(line: Line)
      modifies this
      ensures rows == old(rows) + [line]
    {
      rows := rows + [line];
    }
  }

  /** Read the three parallel lists off a listing page
      (global_tech.py:30-39). `ok` is false when a row lacks an element:
      the source raises there, with the lists partly built. */
  method ParseListing(rows: seq<ListingRow>) returns (ok: bool, titles: seq<string>, speakers: seq<string>, urls: seq<string>)
    ensures ok <==> Candidates(rows).Some?
    ensures ok ==> |titles| == |speakers| == |urls| == |rows|
    ensures ok ==> forall i :: 0 <= i < |rows| ==>
              titles[i] == rows[i].title.value && speakers[i] == rows[i].speaker.value && urls[i] == rows[i].href.value
    ensures ok ==> Zip3(titles, speakers, urls) == Candidates(rows).value
  {
    titles, speakers, urls := [], [], [];
    var i := 0;
    while i < |rows|
      invariant 0 <= i <= |rows|
      invariant |titles| == |speakers| == |urls| == i
      invariant forall j :: 0 <= j < i ==> Complete(rows[j])
      invariant forall j :: 0 <= j < i ==>
                  titles[j] == rows[j].title.value && speakers[j] == rows[j].speaker.value && urls[j] == rows[j].href.value
    {
      var row := rows[i];
      if row.title.None? {
        ok := false;
        return;
      }
      titles := titles + [row.title.value];
      if row.speaker.None? {
        ok := false;
        return;
      }
      speakers := speakers + [row.speaker.value];
      if row.href.None? {
        ok := false;
        return;
      }
      urls := urls + [row.href.value];
      i := i + 1;
    }
    ok := true;
  }

  /** Visit each candidate's detail page in order and write its row
      (global_tech.py:42-143); a page that fails to load ends the visits. */
  method VisitCandidates(site: Site, cs: seq<Candidate>, sink: CsvSink) returns (failed: Option<string>)
    modifies sink
    ensures sink.rows == old(sink.rows) + Lines(VisitAll(site, cs).visited)
    ensures failed == VisitAll(site, cs).failed
  {
    ghost var written: seq<Visited> := [];
    var i := 0;
    while i < |cs|
      invariant 0 <= i <= |cs|
      invariant sink.rows == old(sink.rows) + Lines(written)
      invariant VisitAll(site, cs).visited == written + VisitAll(site, cs[i..]).visited
      invariant VisitAll(site, cs).failed == VisitAll(site, cs[i..]).failed
    {
      var c := cs[i];
      VisitAllAt(site, cs, i);
      if c.url !in site.talks {
        AppendEmpty(written);
        failed := Some(c.url);
        return;
      }
      var page := site.talks[c.url];
      var line := AssembleRow(Record(c.title, c.speaker, ExtractDetails(page), c.url));
      sink.WriteRow(line);
      ghost var v := Visited(c, page);
      LinesAppend(written, [v]);
      LinesAt([v], 0);
      AppendAssoc(old(sink.rows), Lines(written), Lines([v]));
      AppendAssoc(written, [v], VisitAll(site, cs[i + 1..]).visited);
      written := written + [v];
      i := i + 1;
    }
    assert cs[i..] == [];
    AppendEmpty(written);
    failed := None;
  }

  /** One loaded listing page (global_tech.py:29-143): read its rows,
      then visit its talks. Returns why the run ends here, if it does. */
  method ProcessPage(site: Site, rows: seq<ListingRow>, sink: CsvSink) returns (stop: Option<Stop>)
    modifies sink
    ensures sink.rows == old(sink.rows) + Lines(ProcessListing(site, rows).visited)
    ensures stop == ProcessListing(site, rows).stop
  {
    var ok, titles, speakers, urls := ParseListing(rows);
    if !ok {
      stop := Some(ListingRowIncomplete);
      return;
    }
    var failed := VisitCandidates(site, Zip3(titles, speakers, urls), sink);
    stop := if failed.Some? then Some(DetailFetchFailed(failed.value)) else None;
  }

  /** The whole script: the header row (global_tech.py:11), then the
      crawl. Returns why the run ended and the final page counter. */
  method Run(site: Site, sink: CsvSink) returns (stop: Stop, p: nat)
    modifies sink
    ensures sink.rows == old(sink.rows) + [HeaderLine] + Lines(Crawl(site).visited)
    ensures stop == Crawl(site).stop
    ensures p == FinalCounter(Crawl(site))
  {
    sink.WriteRow(HeaderLine);
    stop, p := CrawlPages(site, sink);
  }

  /** The `while True` loop (global_tech.py:15-143): listing pages 1, 2,
      3, ... until a fetch fails, or an exception ends the run. */
  method CrawlPages(site: Site, sink: CsvSink) returns (stop: Stop, p: nat)
    modifies sink
    ensures sink.rows == old(sink.rows) + Lines(Crawl(site).visited)
    ensures stop == Crawl(site).stop
    ensures p == FinalCounter(Crawl(site))
  {
    p := 1;
    ghost var written: seq<Visited> := [];
    while true
      invariant 1 <= p <= |site.pages| + 1
      invariant sink.rows == old(sink.rows) + Lines(written)
      invariant Crawl(site).visited == written + CrawlFrom(site, p).visited
      invariant Crawl(site).stop == CrawlFrom(site, p).stop
      invariant Crawl(site).lastPage == CrawlFrom(site, p).lastPage
      decreases |site.pages| + 1 - p
    {
      var fetched := FetchListing(site, p);
      if fetched.None? {
        CrawlFromFetchFails(site, p);
        AppendEmpty(written);
        stop := ListingFetchFailed;
        return;
      }
      ghost var page := p;
      p := p + 1;
      ghost var here := ProcessListing(site, fetched.value).visited;
      var pageStop := ProcessPage(site, fetched.value, sink);
      LinesAppend(written, here);
      AppendAssoc(old(sink.rows), Lines(written), Lines(here));
      if pageStop.Some? {
        CrawlFromEndsOn(site, page);
        stop := pageStop.value;
        return;
      }
      CrawlFromContinues(site, page);
      AppendAssoc(written, here, CrawlFrom(site, p).visited);
      written := written + here;
    }
  }
}
