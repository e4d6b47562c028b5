/** `scrape_url` (app.py) without the browser: the page load and every linked-page
    fetch are given as outcomes, and the model keeps the order of the steps, the link
    cap, the excerpt rule and the per-link failure handling. */
module Scraper {
  import opened Wrappers
  import opened Strings
  import opened Html
  import opened Sanitizer
  import opened Links

  /** What the browser produced for the page itself: the parsed rendered document, or
      the failure of any step before the link loop (driver start-up, navigation, the
      ten-second ready-state wait, scrolling, reading or parsing the page). */
  datatype PageLoad = Loaded(doc: seq<Node>) | LoadFailed(reason: string)

  /** What navigating to one linked page and reading it produced. */
  datatype Fetch = Fetched(doc: seq<Node>) | FetchFailed(reason: string)

  /** One entry of `links_data`. */
  datatype LinkPage = LinkPage(url: string, content: string)

  const ExcerptLimit: nat := 500
  const Ellipsis: string := "..."

  /** Python's `s[:n]` for any integer `n`: a prefix of `s`, of length `n` capped at
      `|s|`, or, for negative `n`, everything but the last `-n` elements. */
  function Take<T>(s: seq<T>, n: int): (r: seq<T>)
    ensures |r| <= |s| && r == s[..|r|]
    ensures n >= 0 ==> |r| == if n < |s| then n else |s|
    ensures n < 0 ==> |r| == if |s| + n > 0 then |s| + n else 0
  {
    if n >= 0 then (if n < |s| then s[..n] else s)
    else (if |s| + n > 0 then s[..|s| + n] else [])
  }

  /** `s[:limit] + '...' if len(s) > limit else s` */
  function Truncate(s: string, limit: nat): (r: string)
    ensures |s| <= limit ==> r == s
    ensures |s| > limit ==> |r| == limit + |Ellipsis| && r[..limit] == s[..limit] && EndsWith(r, Ellipsis)
  {
    if |s| > limit then s[..limit] + Ellipsis else s
  }

  /** The stored content of a linked page: the first 500 characters of the cleaned page
      followed by "..." when it is longer, the cleaned page itself otherwise. */
  function Excerpt(content: string): (r: string)
    ensures |content| <= ExcerptLimit ==> r == content
    ensures |content| > ExcerptLimit ==> |r| == 503 && r == content[..500] + "..."
  {
    Truncate(content, ExcerptLimit)
  }

  function Urls(pages: seq<LinkPage>): seq<string>
  {
    if pages == [] then [] else [pages[0].url] + Urls(pages[1..])
  }

  lemma {:induction false} UrlsSnoc(pages: seq<LinkPage>, p: LinkPage)
    ensures Urls(pages + [p]) == Urls(pages) + [p.url]
    decreases |pages|
  {
    if pages == [] {
      assert [] + [p] == [p];
    } else {
      assert (pages + [p])[0] == pages[0] && (pages + [p])[1..] == pages[1..] + [p];
      UrlsSnoc(pages[1..], p);
    }
  }

  lemma {:induction false} UrlsLength(pages: seq<LinkPage>)
    ensures |Urls(pages)| == |pages|
    decreases |pages|
  {
    if pages != [] {
      UrlsLength(pages[1..]);
    }
  }

  /** The links whose fetch succeeds, in the order they are tried. */
  function Succeeded(links: seq<string>, fetch: string -> Fetch): (r: seq<string>)
    ensures |r| <= |links|
  {
    if links == [] then []
    else (if fetch(links[0]).Fetched? then [links[0]] else []) + Succeeded(links[1..], fetch)
  }

  /** The links whose fetch fails, in the order they are tried. */
  function FailedLinks(links: seq<string>, fetch: string -> Fetch): (r: seq<string>)
    ensures |r| <= |links|
  {
    if links == [] then []
    else (if fetch(links[0]).FetchFailed? then [links[0]] else []) + FailedLinks(links[1..], fetch)
  }

  /** Failures are isolated: the outcome for a run of links is the outcome for its first
      part followed by the outcome for the rest, so a failure in the first part changes
      nothing about the links after it. */
  lemma OutcomesConcat(a: seq<string>, b: seq<string>, fetch: string -> Fetch)
    ensures Succeeded(a + b, fetch) == Succeeded(a, fetch) + Succeeded(b, fetch)
    ensures FailedLinks(a + b, fetch) == FailedLinks(a, fetch) + FailedLinks(b, fetch)
  {
    SucceededConcat(a, b, fetch);
    FailedConcat(a, b, fetch);
  }

  lemma {:induction false} SucceededConcat(a: seq<string>, b: seq<string>, fetch: string -> Fetch)
    ensures Succeeded(a + b, fetch) == Succeeded(a, fetch) + Succeeded(b, fetch)
    decreases |a|
  {
    if a == [] {
      assert a + b == b;
    } else {
      var ab := a + b;
      assert ab[0] == a[0] && ab[1..] == a[1..] + b;
      SucceededConcat(a[1..], b, fetch);
      var h := if fetch(a[0]).Fetched? then [a[0]] else [];
      calc {
        Succeeded(ab, fetch);
        h + Succeeded(a[1..] + b, fetch);
        h + (Succeeded(a[1..], fetch) + Succeeded(b, fetch));
        (h + Succeeded(a[1..], fetch)) + Succeeded(b, fetch);
        Succeeded(a, fetch) + Succeeded(b, fetch);
      }
    }
  }

  lemma {:induction false} FailedConcat(a: seq<string>, b: seq<string>, fetch: string -> Fetch)
    ensures FailedLinks(a + b, fetch) == FailedLinks(a, fetch) + FailedLinks(b, fetch)
    decreases |a|
  {
    if a == [] {
      assert a + b == b;
    } else {
      var ab := a + b;
      assert ab[0] == a[0] && ab[1..] == a[1..] + b;
      FailedConcat(a[1..], b, fetch);
      var h := if fetch(a[0]).FetchFailed? then [a[0]] else [];
      calc {
        FailedLinks(ab, fetch);
        h + FailedLinks(a[1..] + b, fetch);
        h + (FailedLinks(a[1..], fetch) + FailedLinks(b, fetch));
        (h + FailedLinks(a[1..], fetch)) + FailedLinks(b, fetch);
        FailedLinks(a, fetch) + FailedLinks(b, fetch);
      }
    }
  }

  /** Every tried link is either kept or reported. */
  lemma {:induction false} OutcomesPartition(links: seq<string>, fetch: string -> Fetch)
    ensures |Succeeded(links, fetch)| + |FailedLinks(links, fetch)| == |links|
    decreases |links|
  {
    if links != [] {
      OutcomesPartition(links[1..], fetch);
    }
  }

  /** When no link of `links` fails, all of them are kept. */
  lemma {:induction false} NoneFail(links: seq<string>, fetch: string -> Fetch)
    requires FailedLinks(links, fetch) == []
    ensures Succeeded(links, fetch) == links
    decreases |links|
  {
    if links != [] {
      assert fetch(links[0]).Fetched?;
      NoneFail(links[1..], fetch);
      assert links == [links[0]] + links[1..];
    }
  }

  /** One failing link among links that all load: the result holds the others in their
      order, and the failing one is the only one reported. */
  lemma OneFailureKeepsTheRest(before: seq<string>, bad: string, after: seq<string>, fetch: string -> Fetch)
    requires FailedLinks(before, fetch) == [] && FailedLinks(after, fetch) == []
    requires fetch(bad).FetchFailed?
    ensures Succeeded(before + [bad] + after, fetch) == before + after
    ensures FailedLinks(before + [bad] + after, fetch) == [bad]
  {
    var sb, sa := Succeeded(before, fetch), Succeeded(after, fetch);
    var sx, fx := Succeeded([bad], fetch), FailedLinks([bad], fetch);
    assert sb == before by { NoneFail(before, fetch); }
    assert sa == after by { NoneFail(after, fetch); }
    assert sx == [] && fx == [bad] by { assert [bad][1..] == []; }
    OutcomesConcat(before + [bad], after, fetch);
    OutcomesConcat(before, [bad], fetch);
    assert sb + sx + sa == before + after;
    assert [] + fx + [] == [bad];
  }

  /** `page` is what the loop records for a link whose fetch succeeded: the link and
      the excerpt of its cleaned page. */
  predicate Recorded(page: LinkPage, fetch: string -> Fetch, clean: seq<Node> -> string) {
    fetch(page.url).Fetched? && page.content == Excerpt(clean(fetch(page.url).doc))
  }

  lemma RecordedSnoc(pages: seq<LinkPage>, p: LinkPage, fetch: string -> Fetch, clean: seq<Node> -> string)
    requires forall j :: 0 <= j < |pages| ==> Recorded(pages[j], fetch, clean)
    requires Recorded(p, fetch, clean)
    ensures forall j :: 0 <= j < |pages + [p]| ==> Recorded((pages + [p])[j], fetch, clean)
  {
    forall j | 0 <= j < |pages + [p]|
      ensures Recorded((pages + [p])[j], fetch, clean)
    {
      if j < |pages| {
        assert (pages + [p])[j] == pages[j];
      }
    }
  }

  /** The outcome of a single link. */
  lemma OutcomeOfOne(link: string, fetch: string -> Fetch)
    ensures fetch(link).Fetched? ==> Succeeded([link], fetch) == [link] && FailedLinks([link], fetch) == []
    ensures fetch(link).FetchFailed? ==> Succeeded([link], fetch) == [] && FailedLinks([link], fetch) == [link]
  {
    assert [link][1..] == [];
  }

  /** Trying one more link extends the outcome by that link's outcome. */
  lemma PrefixStep(links: seq<string>, i: nat, fetch: string -> Fetch)
    requires i < |links|
    ensures fetch(links[i]).Fetched? ==>
      Succeeded(links[..i + 1], fetch) == Succeeded(links[..i], fetch) + [links[i]]
      && FailedLinks(links[..i + 1], fetch) == FailedLinks(links[..i], fetch)
    ensures fetch(links[i]).FetchFailed? ==>
      Succeeded(links[..i + 1], fetch) == Succeeded(links[..i], fetch)
      && FailedLinks(links[..i + 1], fetch) == FailedLinks(links[..i], fetch) + [links[i]]
  {
    assert links[..i + 1] == links[..i] + [links[i]];
    OutcomesConcat(links[..i], [links[i]], fetch);
    OutcomeOfOne(links[i], fetch);
    assert Succeeded(links[..i], fetch) + [] == Succeeded(links[..i], fetch);
    assert FailedLinks(links[..i], fetch) + [] == FailedLinks(links[..i], fetch);
  }

  /** The loop over the capped links: each link is fetched in turn; a success adds an
      entry with its excerpt, a failure is reported and the loop goes on. */
  method ScrapeLinks(links: seq<string>, fetch: string -> Fetch, clean: seq<Node> -> string)
    returns (pages: seq<LinkPage>, failed: seq<string>)
    ensures Urls(pages) == Succeeded(links, fetch)
    ensures failed == FailedLinks(links, fetch)
    ensures forall j :: 0 <= j < |pages| ==> Recorded(pages[j], fetch, clean)
  {
    pages, failed := [], [];
    var i := 0;
    while i < |links|
      invariant 0 <= i <= |links|
      invariant Urls(pages) == Succeeded(links[..i], fetch)
      invariant failed == FailedLinks(links[..i], fetch)
      invariant forall j :: 0 <= j < |pages| ==> Recorded(pages[j], fetch, clean)
    {
      var link := links[i];
      PrefixStep(links, i, fetch);
      match fetch(link) {
        case Fetched(doc) =>
          var p := LinkPage(link, Excerpt(clean(doc)));
          assert Recorded(p, fetch, clean);
          RecordedSnoc(pages, p, fetch, clean);
          UrlsSnoc(pages, p);
          pages := pages + [p];
        case FetchFailed(_) =>
          failed := failed + [link];
      }
      i := i + 1;
    }
    assert links[..i] == links;
  }

  /** `scrape_url(url, extract_links_flag, max_links)`. A failure before the link loop
      gives no main content and no linked pages. Otherwise the main content is the page
      cleaned with attribute cleaning on; with link extraction on, the tried links are
      the first `max_links` (Python slice) of the de-duplicated resolved links, each
      link whose fetch fails is reported and left out, and the rest are kept in the
      order tried. */
  method ScrapeUrl(url: string, extractLinksFlag: bool, maxLinks: int, load: PageLoad,
                   fetch: string -> Fetch, serialise: seq<Node> -> string)
    returns (main: Option<string>, pages: seq<LinkPage>, allLinks: seq<string>, failed: seq<string>)
    ensures load.LoadFailed? ==> main == None && pages == [] && failed == []
    ensures load.Loaded? ==> main == Some(CleanHtml(load.doc, true, serialise))
    ensures !extractLinksFlag ==> pages == [] && allLinks == [] && failed == []
    ensures load.Loaded? && extractLinksFlag ==>
      && NoDup(allLinks)
      && (forall x :: x in allLinks <==> x in ResolvedLinks(AnchorHrefs(load.doc), url))
      && Urls(pages) == Succeeded(Take(allLinks, maxLinks), fetch)
      && failed == FailedLinks(Take(allLinks, maxLinks), fetch)
    ensures maxLinks >= 0 ==> |pages| + |failed| <= maxLinks
    ensures forall j :: 0 <= j < |pages| ==>
      && fetch(pages[j].url).Fetched?
      && pages[j].content == Excerpt(CleanHtml(fetch(pages[j].url).doc, true, serialise))
  {
    match load
    case LoadFailed(_) =>
      return None, [], [], [];
    case Loaded(doc) =>
      main := Some(CleanHtml(doc, true, serialise));
      pages, allLinks, failed := [], [], [];
      if extractLinksFlag {
        allLinks := ExtractLinks(doc, url);
        var attempted := Take(allLinks, maxLinks);
        var clean := doc => CleanHtml(doc, true, serialise);
        pages, failed := ScrapeLinks(attempted, fetch, clean);
        OutcomesPartition(attempted, fetch);
        UrlsLength(pages);
      }
  }
}
