/** `extract_links` (app.py): collect the `href` of every anchor, keep absolute ones,
    resolve root-relative ones against the page URL, and de-duplicate. */
module Links {
  import opened Wrappers
  import opened Strings
  import opened Html

  /** No value occurs twice. */
  predicate NoDup<T(==)>(s: seq<T>) {
    forall i, j :: 0 <= i < j < |s| ==> s[i] != s[j]
  }

  function ToSet<T>(s: seq<T>): set<T> {
    set x | x in s
  }

  /** A duplicate-free sequence has as many elements as its set. */
  lemma {:induction false} NoDupCardinality<T>(s: seq<T>)
    requires NoDup(s)
    ensures |ToSet(s)| == |s|
    decreases |s|
  {
    if s != [] {
      NoDupCardinality(s[1..]);
      assert ToSet(s) == {s[0]} + ToSet(s[1..]);
      assert s[0] !in ToSet(s[1..]);
    }
  }

  // ---------------------------------------------------------------------------
  // Anchors

  /** Streaming reference: the href of every opening `a` tag of a token stream that
      has one, in stream order. */
  function StreamHrefs(ts: seq<Token>): seq<string>
  {
    if ts == [] then []
    else (match ts[0]
          case Open(n, a) => if n == "a" && "href" in a then [a["href"]] else []
          case _ => [])
         + StreamHrefs(ts[1..])
  }

  lemma {:induction false} StreamHrefsConcat(a: seq<Token>, b: seq<Token>)
    ensures StreamHrefs(a + b) == StreamHrefs(a) + StreamHrefs(b)
    decreases |a|
  {
    if a != [] {
      assert (a + b)[0] == a[0] && (a + b)[1..] == a[1..] + b;
      StreamHrefsConcat(a[1..], b);
    } else {
      assert a + b == b;
    }
  }

  /** The `href` values of `soup.find_all('a', href=True)`: every anchor that carries
      an href attribute, at any depth. The tree search meets them in the same order as
      a walk over the document's token stream meets their opening tags. */
  function AnchorHrefs(nodes: seq<Node>): (r: seq<string>)
    ensures r == StreamHrefs(Tokens(nodes))
    decreases nodes
  {
    if nodes == [] then []
    else
      var rest := AnchorHrefs(nodes[1..]);
      match nodes[0]
      case Element(n, a, ch) =>
        var own := if n == "a" && "href" in a then [a["href"]] else [];
        var inner := AnchorHrefs(ch);
        ElementHrefs(n, a, ch, nodes[1..]);
        assert [nodes[0]] + nodes[1..] == nodes;
        own + inner + rest
      case Text(t) =>
        TokensCons(nodes[0], nodes[1..]);
        assert [nodes[0]] + nodes[1..] == nodes;
        StreamHrefsConcat([Chars(t)], Tokens(nodes[1..]));
        rest
  }

  /** The stream hrefs of a forest that starts with an element: the element's own, then
      those inside it, then those after it. */
  lemma ElementHrefs(n: string, a: map<string, string>, ch: seq<Node>, rest: seq<Node>)
    ensures StreamHrefs(Tokens([Element(n, a, ch)] + rest)) ==
      (if n == "a" && "href" in a then [a["href"]] else []) + StreamHrefs(Tokens(ch)) + StreamHrefs(Tokens(rest))
  {
    TokensCons(Element(n, a, ch), rest);
    StreamHrefsConcat([Open(n, a)], Tokens(ch));
    StreamHrefsConcat([Open(n, a)] + Tokens(ch), [Close(n)]);
    StreamHrefsConcat([Open(n, a)] + Tokens(ch) + [Close(n)], Tokens(rest));
    assert StreamHrefs([Close(n)]) == [];
  }

  // ---------------------------------------------------------------------------
  // Resolution

  /** How one href becomes a link: one that starts with "http" is kept as it is, one
      that starts with "/" is appended to the page URL with its trailing slashes
      removed, and any other href yields no link. The whole page URL is used, not just
      its origin. */
  function ResolveHref(href: string, baseUrl: string): (r: Option<string>)
    ensures r.Some? <==> StartsWith(href, "http") || StartsWith(href, "/")
    ensures StartsWith(href, "http") ==> r == Some(href)
    ensures r.Some? ==> EndsWith(r.value, href)
    ensures r.Some? && !StartsWith(href, "http") ==>
      r.value[..|r.value| - |href|] == TrimEnd(baseUrl, '/') && !EndsWith(r.value[..|r.value| - |href|], "/")
  {
    if StartsWith(href, "http") then Some(href)
    else if StartsWith(href, "/") then
      var v := TrimEnd(baseUrl, '/') + href;
      assert v[|v| - |href|..] == href;
      Some(v)
    else None
  }

  /** The code's `links` list before de-duplication: the resolved hrefs, in order. */
  function ResolvedLinks(hrefs: seq<string>, baseUrl: string): (r: seq<string>)
    ensures |r| <= |hrefs|
  {
    if hrefs == [] then []
    else
      var head := ResolveHref(hrefs[0], baseUrl);
      (if head.Some? then [head.value] else []) + ResolvedLinks(hrefs[1..], baseUrl)
  }

  /** A URL is in the list exactly when some href resolves to it. */
  lemma {:induction false} ResolvedLinksMembers(hrefs: seq<string>, baseUrl: string, x: string)
    ensures x in ResolvedLinks(hrefs, baseUrl) <==>
      exists i :: 0 <= i < |hrefs| && ResolveHref(hrefs[i], baseUrl) == Some(x)
    decreases |hrefs|
  {
    if hrefs != [] {
      ResolvedLinksMembers(hrefs[1..], baseUrl, x);
      if exists i :: 0 <= i < |hrefs| && ResolveHref(hrefs[i], baseUrl) == Some(x) {
        var i :| 0 <= i < |hrefs| && ResolveHref(hrefs[i], baseUrl) == Some(x);
        if i > 0 {
          assert hrefs[1..][i - 1] == hrefs[i];
        }
      }
      if exists i :: 0 <= i < |hrefs[1..]| && ResolveHref(hrefs[1..][i], baseUrl) == Some(x) {
        var i :| 0 <= i < |hrefs[1..]| && ResolveHref(hrefs[1..][i], baseUrl) == Some(x);
        assert hrefs[i + 1] == hrefs[1..][i];
      }
    }
  }

  /** Resolving one more href appends its link, if it has one. */
  lemma {:induction false} ResolvedLinksSnoc(hrefs: seq<string>, href: string, baseUrl: string)
    ensures ResolvedLinks(hrefs + [href], baseUrl) ==
      ResolvedLinks(hrefs, baseUrl) + (var r := ResolveHref(href, baseUrl); if r.Some? then [r.value] else [])
    decreases |hrefs|
  {
    if hrefs == [] {
      assert [] + [href] == [href];
      assert [href][1..] == [];
    } else {
      assert (hrefs + [href])[0] == hrefs[0];
      assert (hrefs + [href])[1..] == hrefs[1..] + [href];
      ResolvedLinksSnoc(hrefs[1..], href, baseUrl);
    }
  }

  /** `list(set(found))`: every value of `found` exactly once, in an order the language
      leaves open; this method picks first occurrence, and its contract admits any. */
  method Deduplicate(found: seq<string>) returns (links: seq<string>)
    ensures NoDup(links)
    ensures forall x :: x in links <==> x in found
    ensures |links| == |ToSet(found)|
  {
    links := [];
    var j := 0;
    while j < |found|
      invariant 0 <= j <= |found|
      invariant NoDup(links)
      invariant forall x :: x in links <==> x in found[..j]
    {
      assert found[..j + 1] == found[..j] + [found[j]];
      if found[j] !in links {
        links := links + [found[j]];
      }
      j := j + 1;
    }
    assert found[..j] == found;
    NoDupCardinality(links);
    assert ToSet(links) == ToSet(found);
  }

  /** The loop of `extract_links`: walk the hrefs in order and append the link each
      one resolves to, if any. */
  method CollectLinks(hrefs: seq<string>, baseUrl: string) returns (found: seq<string>)
    ensures found == ResolvedLinks(hrefs, baseUrl)
  {
    found := [];
    var i := 0;
    while i < |hrefs|
      invariant 0 <= i <= |hrefs|
      invariant found == ResolvedLinks(hrefs[..i], baseUrl)
    {
      ResolvedLinksSnoc(hrefs[..i], hrefs[i], baseUrl);
      assert hrefs[..i + 1] == hrefs[..i] + [hrefs[i]];
      var r := ResolveHref(hrefs[i], baseUrl);
      if r.Some? {
        found := found + [r.value];
      }
      i := i + 1;
    }
    assert hrefs[..i] == hrefs;
  }

  /** `extract_links(soup, base_url)`. The code walks the anchors, appends each
      resolved href to a list and returns `list(set(links))`, whose order the language
      leaves open. Callers rely only on this contract, so what they conclude holds for
      every order the set could produce. */
  method ExtractLinks(doc: seq<Node>, baseUrl: string) returns (links: seq<string>)
    ensures NoDup(links)
    ensures forall x :: x in links <==> x in ResolvedLinks(AnchorHrefs(doc), baseUrl)
    ensures |links| == |ToSet(ResolvedLinks(AnchorHrefs(doc), baseUrl))|
  {
    var found := CollectLinks(AnchorHrefs(doc), baseUrl);
    links := Deduplicate(found);
  }
}
