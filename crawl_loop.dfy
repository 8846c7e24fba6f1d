/** The crawl: from a start page, fetch the page, take the first link its
    paragraphs yield, and follow it, until the link is the Philosophy page,
    a page yields no link, or the next page was already visited. The
    fetcher is a finite map from page address to the page's paragraphs; an
    address missing from it is a failed fetch. */
module CrawlLoop {
  import opened Dom
  import opened LinkSelector

  const PHILOSOPHY_URL: string := "https://en.wikipedia.org/wiki/Philosophy"

  // ---------------------------------------------------------------------
  // Paragraph scan

  /** The paragraph list of one fetched page, consumed from the front. */
  class Elements {
    var elems: seq<Item>

    constructor (paragraphs: seq<Item>)
      ensures elems == paragraphs
    {
      elems := paragraphs;
    }
  }

  /** The first link the paragraphs yield, taken in list order. */
  function NextPage(ps: seq<Item>): Option<string>
  {
    if ps == [] then None
    else if FirstValidLink(ps[0]).Some? then FirstValidLink(ps[0])
    else NextPage(ps[1..])
  }

  /** How many paragraphs the scan takes off the list before it stops. */
  function Examined(ps: seq<Item>): (n: nat)
    ensures n <= |ps|
    ensures ps != [] ==> n > 0
  {
    if ps == [] then 0
    else if FirstValidLink(ps[0]).Some? then 1
    else 1 + Examined(ps[1..])
  }

  /** The scan yields nothing exactly when no paragraph has a link, and
      then it has examined them all. */
  lemma {:induction false} NextPageNone(ps: seq<Item>)
    ensures NextPage(ps).None? <==> forall i :: 0 <= i < |ps| ==> FirstValidLink(ps[i]).None?
    ensures NextPage(ps).None? ==> Examined(ps) == |ps|
  {
    if ps != [] {
      var link := FirstValidLink(ps[0]);
      if link.None? {
        NextPageNone(ps[1..]);
        assert NextPage(ps) == NextPage(ps[1..]);
        assert forall i :: 1 <= i < |ps| ==> ps[i] == ps[1..][i - 1];
      }
    }
  }

  /** Otherwise the scan yields the link of the first paragraph that has
      one, after examining exactly the paragraphs up to that one. */
  lemma {:induction false} NextPageIsFirstHit(ps: seq<Item>)
    ensures NextPage(ps).Some? ==>
              FirstValidLink(ps[Examined(ps) - 1]) == NextPage(ps) &&
              forall j :: 0 <= j < Examined(ps) - 1 ==> FirstValidLink(ps[j]).None?
  {
    if ps != [] {
      var link := FirstValidLink(ps[0]);
      if link.None? {
        NextPageIsFirstHit(ps[1..]);
        assert NextPage(ps) == NextPage(ps[1..]);
        assert Examined(ps) == 1 + Examined(ps[1..]);
        assert forall j :: 1 <= j < |ps| ==> ps[j] == ps[1..][j - 1];
      }
    }
  }

  /** Takes paragraphs off the front of the list until one yields a link. */
  method GetNextPage(paragraphs: Elements) returns (ret: Option<string>)
    modifies paragraphs
    ensures ret == NextPage(old(paragraphs.elems))
    ensures paragraphs.elems == old(paragraphs.elems)[Examined(old(paragraphs.elems))..]
  {
    ret := None;
    ghost var ps := paragraphs.elems;
    ghost var done := 0;
    while ret == None && paragraphs.elems != []
      invariant 0 <= done <= |ps|
      invariant paragraphs.elems == ps[done..]
      invariant ret == None ==> NextPage(ps) == NextPage(ps[done..]) && Examined(ps) == done + Examined(ps[done..])
      invariant ret != None ==> ret == NextPage(ps) && Examined(ps) == done
      decreases |paragraphs.elems|
    {
      var currentElement := paragraphs.elems[0];
      assert ps[done..][1..] == ps[done + 1..];
      paragraphs.elems := paragraphs.elems[1..];
      ret := GetFirstValidLink(currentElement);
      done := done + 1;
    }
  }

  // ---------------------------------------------------------------------
  // The crawl

  /** How a crawl ends: the Philosophy page was reached, a page had no
      link, the next page had been visited, or a fetch failed. The source
      reports the first as true, the next two as false, and the last as an
      I/O exception. */
  datatype Outcome = Found | NoLink | Revisit | FetchFailed(url: string)

  /** A crawl's outcome and the pages it fetched, in order. */
  datatype Run = Run(outcome: Outcome, fetched: seq<string>)

  predicate Distinct(s: seq<string>)
  {
    forall i, j :: 0 <= i < j < |s| ==> s[i] != s[j]
  }

  lemma DistinctCons(x: string, s: seq<string>)
    requires Distinct(s) && x !in s
    ensures Distinct([x] + s)
  {
    forall i, j | 0 <= i < j < |[x] + s| ensures ([x] + s)[i] != ([x] + s)[j] {
      if i > 0 {
        assert ([x] + s)[i] == s[i - 1];
      }
      assert ([x] + s)[j] == s[j - 1];
    }
  }

  lemma FewerUnvisited(pages: map<string, seq<Item>>, url: string, visited: set<string>)
    requires url in pages && url !in visited
    ensures |pages.Keys - (visited + {url})| < |pages.Keys - visited|
  {
    assert pages.Keys - visited == (pages.Keys - (visited + {url})) + {url};
  }

  /** The crawl from `url` with `visited` already seen. */
  function Crawl(pages: map<string, seq<Item>>, url: string, visited: set<string>): Run
    requires visited <= pages.Keys
    decreases |pages.Keys - visited|
  {
    if url in visited then Run(Revisit, [])
    else if url !in pages then Run(FetchFailed(url), [url])
    else
      match NextPage(pages[url])
      case None => Run(NoLink, [url])
      case Some(next) =>
        if next == PHILOSOPHY_URL then Run(Found, [url])
        else
          FewerUnvisited(pages, url, visited);
          var rest := Crawl(pages, next, visited + {url});
          Run(rest.outcome, [url] + rest.fetched)
  }

  /** No page is fetched twice, nor one visited before, and the crawl
      fetches at most one page more than the fetcher knows. */
  lemma {:induction false} CrawlFetchesOnce(pages: map<string, seq<Item>>, url: string, visited: set<string>)
    requires visited <= pages.Keys
    ensures Distinct(Crawl(pages, url, visited).fetched)
    ensures forall u :: u in Crawl(pages, url, visited).fetched ==> u !in visited
    ensures |Crawl(pages, url, visited).fetched| <= |pages.Keys - visited| + 1
    decreases |pages.Keys - visited|
  {
    if url !in visited && url in pages {
      var next := NextPage(pages[url]);
      if next.Some? && next.value != PHILOSOPHY_URL {
        FewerUnvisited(pages, url, visited);
        CrawlStep(pages, url, visited, next.value);
        CrawlFetchesOnce(pages, next.value, visited + {url});
        DistinctCons(url, Crawl(pages, next.value, visited + {url}).fetched);
      }
    }
  }

  /** The crawl follows links: it fetches the start page first, and each
      page it fetches after another is that page's selected link. */
  lemma {:induction false} CrawlFollowsLinks(pages: map<string, seq<Item>>, url: string, visited: set<string>)
    requires visited <= pages.Keys
    ensures var f := Crawl(pages, url, visited).fetched;
            (f == [] <==> url in visited) &&
            (f != [] ==> f[0] == url) &&
            forall i :: 0 <= i < |f| - 1 ==> f[i] in pages && NextPage(pages[f[i]]) == Some(f[i + 1])
    ensures var f := Crawl(pages, url, visited).fetched;
            forall i :: 1 <= i < |f| ==> f[i] != PHILOSOPHY_URL
    decreases |pages.Keys - visited|
  {
    if url !in visited && url in pages {
      var next := NextPage(pages[url]);
      if next.Some? && next.value != PHILOSOPHY_URL {
        FewerUnvisited(pages, url, visited);
        CrawlFollowsLinks(pages, next.value, visited + {url});
        var f := Crawl(pages, url, visited).fetched;
        var rest := Crawl(pages, next.value, visited + {url}).fetched;
        assert f == [url] + rest;
        forall i | 0 <= i < |f| - 1
          ensures f[i] in pages && NextPage(pages[f[i]]) == Some(f[i + 1])
        {
          if i > 0 {
            assert f[i] == rest[i - 1] && f[i + 1] == rest[i];
          }
        }
        forall i | 1 <= i < |f| ensures f[i] != PHILOSOPHY_URL {
          assert f[i] == rest[i - 1];
        }
      }
    }
  }

  /** How a crawl that fetched `last` last ends: by a failed fetch when the
      fetcher lacks `last`, with no link when `last` has none, in success
      when its link is the Philosophy page, and otherwise in a revisit of a
      page seen before the crawl (`seen`) or fetched during it. */
  predicate EndsAt(pages: map<string, seq<Item>>, last: string, outcome: Outcome,
                   seen: set<string>, fetched: seq<string>)
  {
    if last !in pages then outcome == FetchFailed(last)
    else match NextPage(pages[last])
      case None => outcome == NoLink
      case Some(next) =>
        if next == PHILOSOPHY_URL then outcome == Found
        else outcome == Revisit && (next in seen || next in fetched)
  }

  lemma EndsAtWidens(pages: map<string, seq<Item>>, last: string, outcome: Outcome,
                     url: string, seen: set<string>, fetched: seq<string>)
    requires EndsAt(pages, last, outcome, seen + {url}, fetched)
    ensures EndsAt(pages, last, outcome, seen, [url] + fetched)
  {
  }

  function Last(s: seq<string>): string
    requires s != []
  {
    s[|s| - 1]
  }

  /** How the crawl ends is decided by the last page it fetched. */
  lemma {:induction false} CrawlEndsAtLastPage(pages: map<string, seq<Item>>, url: string, visited: set<string>)
    requires visited <= pages.Keys
    requires url !in visited
    ensures Crawl(pages, url, visited).fetched != []
    ensures EndsAt(pages, Last(Crawl(pages, url, visited).fetched), Crawl(pages, url, visited).outcome,
                   visited, Crawl(pages, url, visited).fetched)
    decreases |pages.Keys - visited|
  {
    if url in pages {
      var next := NextPage(pages[url]);
      if next.Some? && next.value != PHILOSOPHY_URL {
        var visited' := visited + {url};
        CrawlStep(pages, url, visited, next.value);
        var rest := Crawl(pages, next.value, visited');
        if next.value in visited' {
          assert rest == Run(Revisit, []);
        } else {
          FewerUnvisited(pages, url, visited);
          CrawlEndsAtLastPage(pages, next.value, visited');
          assert Last([url] + rest.fetched) == Last(rest.fetched);
          EndsAtWidens(pages, Last(rest.fetched), rest.outcome, url, visited, rest.fetched);
        }
      }
    }
  }

  /** One step of the crawl past a page whose link is not the target. */
  lemma CrawlStep(pages: map<string, seq<Item>>, url: string, visited: set<string>, next: string)
    requires visited <= pages.Keys && url !in visited && url in pages
    requires NextPage(pages[url]) == Some(next) && next != PHILOSOPHY_URL
    ensures visited + {url} <= pages.Keys
    ensures Crawl(pages, url, visited) ==
            Run(Crawl(pages, next, visited + {url}).outcome, [url] + Crawl(pages, next, visited + {url}).fetched)
  {
  }

  /** A → B → A ends in a revisit after exactly two fetches. */
  lemma TwoPageLoop(pages: map<string, seq<Item>>, a: string, b: string)
    requires a in pages && b in pages && a != b
    requires NextPage(pages[a]) == Some(b) && NextPage(pages[b]) == Some(a)
    requires b != PHILOSOPHY_URL && a != PHILOSOPHY_URL
    ensures Crawl(pages, a, {}) == Run(Revisit, [a, b])
  {
    CrawlStep(pages, a, {}, b);
    CrawlStep(pages, b, {a}, a);
    assert {} + {a} + {b} == {a, b};
    assert Crawl(pages, a, {a, b}) == Run(Revisit, []);
  }

  /** A page none of whose paragraphs has a link ends the crawl at once. */
  lemma DeadEnd(pages: map<string, seq<Item>>, a: string)
    requires a in pages
    requires forall i :: 0 <= i < |pages[a]| ==> FirstValidLink(pages[a][i]).None?
    ensures Crawl(pages, a, {}) == Run(NoLink, [a])
  {
    NextPageIsFirstHit(pages[a]);
  }

  /** A page whose link is the Philosophy page succeeds after one fetch,
      without fetching the Philosophy page itself. */
  lemma OneHop(pages: map<string, seq<Item>>, a: string)
    requires a in pages && NextPage(pages[a]) == Some(PHILOSOPHY_URL)
    ensures Crawl(pages, a, {}) == Run(Found, [a])
  {
  }

  /** The crawl loop over a visited set. `fetched` is the transcript of the
      pages fetched, in order. */
  method TestConjecture(pages: map<string, seq<Item>>, start: string) returns (outcome: Outcome, fetched: seq<string>)
    ensures Run(outcome, fetched) == Crawl(pages, start, {})
    ensures Distinct(fetched)
  {
    CrawlFetchesOnce(pages, start, {});
    var url := start;
    var visitedPages: set<string> := {};
    fetched := [];
    ghost var rest := Crawl(pages, url, visitedPages);
    while url !in visitedPages
      invariant visitedPages <= pages.Keys
      invariant rest == Crawl(pages, url, visitedPages)
      invariant Crawl(pages, start, {}) == Run(rest.outcome, fetched + rest.fetched)
      decreases |pages.Keys - visitedPages|
    {
      ghost var visitedBefore, fetchedBefore := visitedPages, fetched;
      visitedPages := visitedPages + {url};
      fetched := fetched + [url];
      if url !in pages {
        assert rest == Run(FetchFailed(url), [url]);
        return FetchFailed(url), fetched;
      }
      var paragraphs := new Elements(pages[url]);
      var nextPage := GetNextPage(paragraphs);
      if nextPage.None? {
        assert rest == Run(NoLink, [url]);
        return NoLink, fetched;
      } else if nextPage.value == PHILOSOPHY_URL {
        assert rest == Run(Found, [url]);
        return Found, fetched;
      }
      CrawlStep(pages, url, visitedBefore, nextPage.value);
      FewerUnvisited(pages, url, visitedBefore);
      ghost var later := Crawl(pages, nextPage.value, visitedPages);
      assert rest == Run(later.outcome, [url] + later.fetched);
      AppendAssoc(fetchedBefore, [url], later.fetched);
      url := nextPage.value;
      rest := later;
    }
    assert rest == Run(Revisit, []);
    assert fetched + [] == fetched;
    return Revisit, fetched;
  }
}
