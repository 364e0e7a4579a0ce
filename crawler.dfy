/** crawl.py: the link and page filters, the file name and record written for
    an accepted page, and the accept loop of `crawl_source`. HTTP, HTML
    parsing, `urljoin`, `urlparse(..).netloc`, md5, `json.dumps`,
    `str.lower` and the clock are library calls or I/O; each is passed in
    as a function. The output directory is a map from file name to file
    contents. */
module Crawler {
  import opened Strings
  import opened Records

  const AllowedDomains: seq<string> := ["tapchilichsudang.vn", "dangcongsan.vn"]
  const MaxArticlesPerSource: nat := 30
  /** Pages whose cleaned text is shorter than this are skipped. */
  const MinTextLength: nat := 500
  const Keywords: seq<string> := ["Hồ Chí Minh", "Đại hội", "Cách mạng", "lịch sử Đảng", "biên niên"]

  /** The output directory `data/web`: file name to contents. */
  type Directory = map<string, string>

  // ---------------------------------------------------------------------------
  // Filters.

  /** `is_allowed_domain`: some allowed domain occurs anywhere in the netloc. */
  function IsAllowedDomain(url: string, netloc: string -> string): (r: bool)
    ensures r <==> exists i: nat, k: nat :: i < |AllowedDomains| && OccursAt(netloc(url), AllowedDomains[i], k)
  {
    ContainsAnyIff(netloc(url), AllowedDomains);
    ContainsAny(netloc(url), AllowedDomains)
  }

  /** The test is containment, not a suffix or equality test: an allowed
      domain with anything around it passes. */
  lemma AllowedAnywhere(url: string, netloc: string -> string, i: nat, before: string, after: string)
    requires i < |AllowedDomains| && netloc(url) == before + AllowedDomains[i] + after
    ensures IsAllowedDomain(url, netloc)
  {
    var d := netloc(url);
    assert d[|before|..|before| + |AllowedDomains[i]|] == AllowedDomains[i];
    assert OccursAt(d, AllowedDomains[i], |before|);
  }

  /** For instance, a host that merely starts with an allowed domain is accepted. */
  lemma LookalikeHostAccepted(url: string, netloc: string -> string)
    requires netloc(url) == "dangcongsan.vn.example.com"
    ensures IsAllowedDomain(url, netloc)
  {
    assert netloc(url) == "" + AllowedDomains[1] + ".example.com";
    AllowedAnywhere(url, netloc, 1, "", ".example.com");
  }

  /** A netloc shorter than the shortest allowed domain is rejected. */
  lemma ShortNetlocRejected(url: string, netloc: string -> string)
    requires |netloc(url)| < |AllowedDomains[1]|
    ensures !IsAllowedDomain(url, netloc)
  {
    assert forall i: nat :: i < |AllowedDomains| ==> |AllowedDomains[1]| <= |AllowedDomains[i]|;
  }

  /** The keywords, each passed through the same lower-casing as the text. */
  function LoweredKeywords(lower: string -> string): (r: seq<string>)
    ensures |r| == |Keywords| && forall i :: 0 <= i < |Keywords| ==> r[i] == lower(Keywords[i])
  {
    seq(|Keywords|, i requires 0 <= i < |Keywords| => lower(Keywords[i]))
  }

  /** `contains_keywords`: some lower-cased keyword occurs in the lower-cased text. */
  function ContainsKeywords(text: string, lower: string -> string): (r: bool)
    ensures r <==> exists i :: 0 <= i < |Keywords| && Contains(lower(text), lower(Keywords[i]))
  {
    var lowered := LoweredKeywords(lower);
    assert forall i :: 0 <= i < |Keywords| ==> lowered[i] == lower(Keywords[i]);
    ContainsAny(lower(text), lowered)
  }

  /** Lower-casing that works character by character (a homomorphism of strings). */
  ghost predicate Homomorphic(lower: string -> string) {
    forall a: string, b: string :: lower(a + b) == lower(a) + lower(b)
  }

  /** A text that contains a keyword as written passes the keyword filter. */
  lemma KeywordFound(before: string, i: nat, after: string, lower: string -> string)
    requires i < |Keywords| && Homomorphic(lower)
    ensures ContainsKeywords(before + Keywords[i] + after, lower)
  {
    var k := Keywords[i];
    var s := lower(before + k + after);
    assert s == lower(before) + lower(k) + lower(after);
    assert s[|lower(before)|..|lower(before)| + |lower(k)|] == lower(k);
    assert OccursAt(s, lower(k), |lower(before)|);
    ContainsIff(s, lower(k));
  }

  /** A page that survives both checks in the loop. */
  predicate Accepted(text: string, lower: string -> string) {
    |text| >= MinTextLength && ContainsKeywords(text, lower)
  }

  // ---------------------------------------------------------------------------
  // The record written for an accepted page.

  /** `generate_filename`: the hex digest of the URL followed by `.txt`. */
  function GenerateFilename(url: string, md5: string -> string): (r: string)
    ensures EndsWith(r, ".txt") && r[..|r| - 4] == md5(url)
  {
    md5(url) + ".txt"
  }

  /** Two URLs share a file exactly when their digests agree; so the same URL always targets the same file. */
  lemma SameFileIffSameDigest(u: string, v: string, md5: string -> string)
    ensures GenerateFilename(u, md5) == GenerateFilename(v, md5) <==> md5(u) == md5(v)
  {
  }

  /** `save_article`: the file named after `metadata["url"]` now holds the
      record layout; every other file is untouched. */
  function SaveArticle(dir: Directory, text: string, metadata: Metadata,
                       dumps: Metadata -> string, md5: string -> string): (r: Directory)
    requires "url" in metadata
    ensures var name := GenerateFilename(metadata["url"], md5);
      && r.Keys == dir.Keys + {name}
      && r[name] == MetadataDelimiter + "\n" + dumps(metadata) + "\n\n" + ContentDelimiter + "\n\n" + text
      && forall f :: f in dir && f != name ==> r[f] == dir[f]
  {
    dir[GenerateFilename(metadata["url"], md5) := Layout(dumps(metadata), text)]
  }

  /** Saving a second article with the same URL overwrites the first. */
  lemma SameUrlOverwrites(dir: Directory, t1: string, m1: Metadata, t2: string, m2: Metadata,
                          dumps: Metadata -> string, md5: string -> string)
    requires "url" in m1 && "url" in m2 && m1["url"] == m2["url"]
    ensures SaveArticle(SaveArticle(dir, t1, m1, dumps, md5), t2, m2, dumps, md5)
         == SaveArticle(dir, t2, m2, dumps, md5)
  {
  }

  /** A saved article is read back by the indexer: its file is a `.txt` file
      and reads and parses to the stripped text, with its line endings
      translated, and the saved metadata, provided the JSON dump mentions
      neither delimiter and no carriage return, the text does not contain the
      content delimiter, and decoding inverts the dump. */
  lemma SavedArticleLoads(dir: Directory, text: string, metadata: Metadata,
                          dumps: Metadata -> string, md5: string -> string, loads: JsonDecoder)
    requires "url" in metadata
    requires !Contains(dumps(metadata), ContentDelimiter) && !Contains(dumps(metadata), MetadataDelimiter)
    requires '\r' !in dumps(metadata)
    requires !Contains(text, ContentDelimiter)
    requires loads(Strip(dumps(metadata))) == Some(metadata)
    ensures var name := GenerateFilename(metadata["url"], md5);
      && EndsWith(name, ".txt")
      && ReadRecord(SaveArticle(dir, text, metadata, dumps, md5)[name], loads)
         == Document(Strip(ReadText(text)), metadata)
  {
    ReadBack(dumps(metadata), text, loads, metadata);
  }

  // ---------------------------------------------------------------------------
  // crawl_source.

  /** The metadata dictionary built for an accepted link. */
  function ArticleMetadata(link: string, netloc: string -> string, crawlTime: string): Metadata {
    map["source" := netloc(link), "url" := link, "crawl_time" := crawlTime]
  }

  /** Resolving an anchor: `urljoin(start, href)`, or `None` when resolving
      it raises — `urljoin` itself, or the `urlparse` of the result inside
      `is_allowed_domain`, raising `ValueError` on a malformed URL. */
  type UrlJoin = (string, string) -> Option<string>

  /** An anchor of the seed page whose resolution raises. */
  predicate SomeAnchorFails(start: string, hrefs: seq<string>, urljoin: UrlJoin) {
    exists h :: h in hrefs && urljoin(start, h).None?
  }

  /** The candidate set: every link of the seed page, resolved against the
      seed URL, that passes the domain filter; `None` when some anchor's
      resolution raises, since the anchor loop is outside any `try`. */
  function CandidateLinks(start: string, hrefs: seq<string>, urljoin: UrlJoin,
                          netloc: string -> string): (r: Option<set<string>>)
    ensures r.None? <==> SomeAnchorFails(start, hrefs, urljoin)
    ensures r.Some? ==> forall l :: l in r.value <==>
      exists h :: h in hrefs && urljoin(start, h) == Some(l) && IsAllowedDomain(l, netloc)
  {
    if SomeAnchorFails(start, hrefs, urljoin) then None
    else Some(set h | h in hrefs && urljoin(start, h).Some? && IsAllowedDomain(urljoin(start, h).value, netloc)
                :: urljoin(start, h).value)
  }

  /** The `links` loop over the anchors of the seed page; `None` when it raises. */
  method CollectLinks(start: string, hrefs: seq<string>, urljoin: UrlJoin,
                      netloc: string -> string) returns (links: Option<set<string>>)
    ensures links == CandidateLinks(start, hrefs, urljoin, netloc)
  {
    var found: set<string> := {};
    assert hrefs[..0] == [];
    assert !SomeAnchorFails(start, hrefs[..0], urljoin);
    assert CandidateLinks(start, hrefs[..0], urljoin, netloc).value == {};
    for n := 0 to |hrefs|
      invariant CandidateLinks(start, hrefs[..n], urljoin, netloc) == Some(found)
    {
      assert hrefs[..n + 1] == hrefs[..n] + [hrefs[n]];
      var fullUrl := urljoin(start, hrefs[n]);
      if fullUrl.None? {
        assert hrefs[n] in hrefs;
        return None;
      }
      CandidateStep(start, hrefs[..n], hrefs[n], urljoin, netloc, found);
      if IsAllowedDomain(fullUrl.value, netloc) {
        found := found + {fullUrl.value};
      }
    }
    assert hrefs[..|hrefs|] == hrefs;
    links := Some(found);
  }

  /** One more anchor that resolves adds its link when the link passes the filter. */
  lemma CandidateStep(start: string, hrefs: seq<string>, h: string, urljoin: UrlJoin,
                      netloc: string -> string, found: set<string>)
    requires CandidateLinks(start, hrefs, urljoin, netloc) == Some(found) && urljoin(start, h).Some?
    ensures var l := urljoin(start, h).value;
      CandidateLinks(start, hrefs + [h], urljoin, netloc)
      == Some(if IsAllowedDomain(l, netloc) then found + {l} else found)
  {
    var hs := hrefs + [h];
    var l := urljoin(start, h).value;
    assert forall x :: x in hs <==> x in hrefs || x == h;
    assert !SomeAnchorFails(start, hs, urljoin);
    var c := CandidateLinks(start, hs, urljoin, netloc).value;
    var expected := if IsAllowedDomain(l, netloc) then found + {l} else found;
    forall x | x in c
      ensures x in expected
    {
      var y :| y in hs && urljoin(start, y) == Some(x) && IsAllowedDomain(x, netloc);
    }
    forall x | x in expected
      ensures x in c
    {
      if x != l || !IsAllowedDomain(l, netloc) {
        var y :| y in hrefs && urljoin(start, y) == Some(x) && IsAllowedDomain(x, netloc);
        assert y in hs;
      } else {
        assert h in hs;
      }
    }
    assert c == expected;
  }

  /** The directory after saving `articles` (link, text) in order; the `i`-th
      save is stamped with `clock(i)`. */
  function SaveAll(dir: Directory, articles: seq<(string, string)>, netloc: string -> string,
                   clock: nat -> string, dumps: Metadata -> string, md5: string -> string): Directory
  {
    if articles == [] then dir
    else
      var n := |articles| - 1;
      var (link, text) := articles[n];
      SaveArticle(SaveAll(dir, articles[..n], netloc, clock, dumps, md5), text,
                  ArticleMetadata(link, netloc, clock(n)), dumps, md5)
  }

  lemma SaveAllStep(dir: Directory, articles: seq<(string, string)>, a: (string, string), netloc: string -> string,
                    clock: nat -> string, dumps: Metadata -> string, md5: string -> string)
    ensures SaveAll(dir, articles + [a], netloc, clock, dumps, md5)
         == SaveArticle(SaveAll(dir, articles, netloc, clock, dumps, md5), a.1,
                        ArticleMetadata(a.0, netloc, clock(|articles|)), dumps, md5)
  {
    assert (articles + [a])[..|articles|] == articles;
  }

  /** Articles saved from the links in `visited`: each was fetched and
      accepted, and no link was saved twice. */
  ghost predicate SavedFrom(articles: seq<(string, string)>, visited: set<string>,
                            fetch: string -> Option<string>, lower: string -> string) {
    && (forall i :: 0 <= i < |articles| ==> articles[i].0 in visited)
    && (forall i :: 0 <= i < |articles| ==> fetch(articles[i].0) == Some(articles[i].1) && Accepted(articles[i].1, lower))
    && (forall i, j :: 0 <= i < j < |articles| ==> articles[i].0 != articles[j].0)
  }

  /** Every accepted link in `visited` was saved. */
  ghost predicate NoneMissed(articles: seq<(string, string)>, visited: set<string>,
                             fetch: string -> Option<string>, lower: string -> string) {
    forall l :: l in visited && fetch(l).Some? && Accepted(fetch(l).value, lower) ==>
      exists i :: 0 <= i < |articles| && articles[i].0 == l
  }

  /** Visiting a link that is not saved keeps both facts, when it is rejected. */
  lemma SkipStep(articles: seq<(string, string)>, visited: set<string>, link: string,
                 fetch: string -> Option<string>, lower: string -> string)
    requires SavedFrom(articles, visited, fetch, lower)
    requires fetch(link).None? || !Accepted(fetch(link).value, lower)
    ensures SavedFrom(articles, visited + {link}, fetch, lower)
    ensures NoneMissed(articles, visited, fetch, lower) ==> NoneMissed(articles, visited + {link}, fetch, lower)
  {
  }

  /** Saving a fresh accepted link keeps both facts. */
  lemma SaveStep(articles: seq<(string, string)>, visited: set<string>, link: string,
                 fetch: string -> Option<string>, lower: string -> string)
    requires SavedFrom(articles, visited, fetch, lower) && link !in visited
    requires fetch(link).Some? && Accepted(fetch(link).value, lower)
    ensures SavedFrom(articles + [(link, fetch(link).value)], visited + {link}, fetch, lower)
    ensures NoneMissed(articles, visited, fetch, lower) ==>
      NoneMissed(articles + [(link, fetch(link).value)], visited + {link}, fetch, lower)
  {
    var a := articles + [(link, fetch(link).value)];
    assert forall i :: 0 <= i < |articles| ==> a[i] == articles[i];
    assert a[|articles|] == (link, fetch(link).value);
    if NoneMissed(articles, visited, fetch, lower) {
      NoneMissedStep(articles, visited, link, fetch, lower);
    }
  }

  lemma NoneMissedStep(articles: seq<(string, string)>, visited: set<string>, link: string,
                       fetch: string -> Option<string>, lower: string -> string)
    requires NoneMissed(articles, visited, fetch, lower) && fetch(link).Some?
    ensures NoneMissed(articles + [(link, fetch(link).value)], visited + {link}, fetch, lower)
  {
    var a := articles + [(link, fetch(link).value)];
    forall l | l in visited + {link} && fetch(l).Some? && Accepted(fetch(l).value, lower)
      ensures exists i :: 0 <= i < |a| && a[i].0 == l
    {
      if l == link {
        assert a[|articles|].0 == l;
      } else {
        var i :| 0 <= i < |articles| && articles[i].0 == l;
        assert a[i].0 == l;
      }
    }
  }

  /** `crawl_source`. `seed` is the list of anchor targets of the start page,
      or `None` when fetching it raises (caught: the function returns);
      `fetch` gives a page's cleaned text, or `None` when fetching or parsing
      it raises (caught: the link is skipped). `raised` reports the one
      uncaught exception, a malformed anchor in the seed page, which leaves
      `crawl_source` before anything is saved. The set of candidates is
      visited in an unspecified order. The result lists the saved pages as
      (link, text) in the order they were saved. */
  method CrawlSource(start: string, seed: Option<seq<string>>, urljoin: UrlJoin,
                     netloc: string -> string, fetch: string -> Option<string>, lower: string -> string,
                     clock: nat -> string, dumps: Metadata -> string, md5: string -> string, dir: Directory)
    returns (raised: bool, articles: seq<(string, string)>, dir': Directory)
    ensures raised <==> seed.Some? && SomeAnchorFails(start, seed.value, urljoin)
    ensures seed.None? || raised ==> articles == [] && dir' == dir
    ensures |articles| <= MaxArticlesPerSource
    ensures seed.Some? && !raised ==> forall i :: 0 <= i < |articles| ==>
      articles[i].0 in CandidateLinks(start, seed.value, urljoin, netloc).value
    ensures forall i :: 0 <= i < |articles| ==>
      fetch(articles[i].0) == Some(articles[i].1) && Accepted(articles[i].1, lower)
    ensures forall i, j :: 0 <= i < j < |articles| ==> articles[i].0 != articles[j].0
    ensures seed.Some? && !raised && |articles| < MaxArticlesPerSource ==>
      forall l :: l in CandidateLinks(start, seed.value, urljoin, netloc).value
        && fetch(l).Some? && Accepted(fetch(l).value, lower)
        ==> exists i :: 0 <= i < |articles| && articles[i].0 == l
    ensures dir' == SaveAll(dir, articles, netloc, clock, dumps, md5)
  {
    raised, articles, dir' := false, [], dir;
    if seed.None? {
      return;
    }
    var links := CollectLinks(start, seed.value, urljoin, netloc);
    if links.None? {
      raised := true;
      return;
    }
    articles, dir' := VisitLinks(links.value, netloc, fetch, lower, clock, dumps, md5, dir);
  }

  /** The `for link in links` loop: visit each candidate once, stop at the
      cap, skip failed fetches and rejected pages, save the rest. */
  method VisitLinks(links: set<string>, netloc: string -> string, fetch: string -> Option<string>,
                    lower: string -> string, clock: nat -> string, dumps: Metadata -> string,
                    md5: string -> string, dir: Directory)
    returns (articles: seq<(string, string)>, dir': Directory)
    ensures |articles| <= MaxArticlesPerSource
    ensures SavedFrom(articles, links, fetch, lower)
    ensures |articles| < MaxArticlesPerSource ==> NoneMissed(articles, links, fetch, lower)
    ensures dir' == SaveAll(dir, articles, netloc, clock, dumps, md5)
  {
    articles, dir' := [], dir;
    var count := 0;
    var remaining := links;
    ghost var visited: set<string> := {};
    while remaining != {}
      invariant visited + remaining == links && visited !! remaining
      invariant count == |articles| <= MaxArticlesPerSource
      invariant SavedFrom(articles, visited, fetch, lower)
      invariant count < MaxArticlesPerSource ==> NoneMissed(articles, visited, fetch, lower)
      invariant dir' == SaveAll(dir, articles, netloc, clock, dumps, md5)
      decreases remaining
    {
      if count >= MaxArticlesPerSource {
        break;
      }
      var link :| link in remaining;
      var saved;
      saved, articles, dir' := VisitLink(link, count, netloc, fetch, lower, clock, dumps, md5,
                                         dir, articles, dir', visited);
      MoveVisited(visited, remaining, links, link);
      remaining := remaining - {link};
      visited := visited + {link};
      if saved {
        count := count + 1;
      }
    }
    SavedFromMonotone(articles, visited, links, fetch, lower);
  }

  /** One pass of the loop body: fetch `link` and, when the page is accepted,
      save it as article number `count`. */
  method VisitLink(link: string, count: nat, netloc: string -> string, fetch: string -> Option<string>,
                   lower: string -> string, clock: nat -> string, dumps: Metadata -> string,
                   md5: string -> string, dir0: Directory, articles: seq<(string, string)>, dir: Directory,
                   ghost visited: set<string>)
    returns (saved: bool, articles': seq<(string, string)>, dir': Directory)
    requires count == |articles| && link !in visited
    requires SavedFrom(articles, visited, fetch, lower)
    requires dir == SaveAll(dir0, articles, netloc, clock, dumps, md5)
    ensures saved <==> fetch(link).Some? && Accepted(fetch(link).value, lower)
    ensures articles' == if saved then articles + [(link, fetch(link).value)] else articles
    ensures SavedFrom(articles', visited + {link}, fetch, lower)
    ensures NoneMissed(articles, visited, fetch, lower) ==> NoneMissed(articles', visited + {link}, fetch, lower)
    ensures dir' == SaveAll(dir0, articles', netloc, clock, dumps, md5)
  {
    var page := fetch(link);
    if page.None? || |page.value| < MinTextLength || !ContainsKeywords(page.value, lower) {
      SkipStep(articles, visited, link, fetch, lower);
      return false, articles, dir;
    }
    var text := page.value;
    var metadata := ArticleMetadata(link, netloc, clock(count));
    dir' := SaveArticle(dir, text, metadata, dumps, md5);
    SaveAllStep(dir0, articles, (link, text), netloc, clock, dumps, md5);
    SaveStep(articles, visited, link, fetch, lower);
    saved, articles' := true, articles + [(link, text)];
  }

  /** Moving the chosen link from `remaining` to `visited` keeps the split of `links`. */
  lemma MoveVisited(visited: set<string>, remaining: set<string>, links: set<string>, link: string)
    requires visited + remaining == links && visited !! remaining && link in remaining
    ensures (visited + {link}) + (remaining - {link}) == links && (visited + {link}) !! (remaining - {link})
  {
  }

  lemma SavedFromMonotone(articles: seq<(string, string)>, visited: set<string>, links: set<string>,
                          fetch: string -> Option<string>, lower: string -> string)
    requires SavedFrom(articles, visited, fetch, lower) && visited <= links
    ensures SavedFrom(articles, links, fetch, lower)
  {
  }

  /** The `i`-th saved article is on disk as its record, unless a later save
      reused its file name. */
  lemma {:induction false} SavedRecordKept(dir: Directory, articles: seq<(string, string)>, i: nat,
                                           netloc: string -> string, clock: nat -> string,
                                           dumps: Metadata -> string, md5: string -> string)
    requires i < |articles|
    requires forall j :: i < j < |articles| ==> md5(articles[j].0) != md5(articles[i].0)
    ensures var d := SaveAll(dir, articles, netloc, clock, dumps, md5);
      var name := GenerateFilename(articles[i].0, md5);
      name in d && d[name] == Layout(dumps(ArticleMetadata(articles[i].0, netloc, clock(i))), articles[i].1)
  {
    var n := |articles| - 1;
    if i < n {
      var init := articles[..n];
      assert forall j :: i < j < |init| ==> init[j] == articles[j];
      SavedRecordKept(dir, init, i, netloc, clock, dumps, md5);
      assert init[i] == articles[i];
      SameFileIffSameDigest(articles[n].0, articles[i].0, md5);
      SaveElsewhere(SaveAll(dir, init, netloc, clock, dumps, md5), articles[n].1,
                    ArticleMetadata(articles[n].0, netloc, clock(n)), dumps, md5,
                    GenerateFilename(articles[i].0, md5));
    }
  }

  /** Saving under another name leaves a file as it was. */
  lemma SaveElsewhere(dir: Directory, text: string, metadata: Metadata,
                      dumps: Metadata -> string, md5: string -> string, name: string)
    requires "url" in metadata && name in dir && name != GenerateFilename(metadata["url"], md5)
    ensures var d := SaveArticle(dir, text, metadata, dumps, md5); name in d && d[name] == dir[name]
  {
  }

  /** Every article a crawl saved, with no later digest clash, is read back
      by the indexer with its text (line endings translated) and its crawl metadata. */
  lemma CrawledArticleLoads(dir: Directory, articles: seq<(string, string)>, i: nat,
                            netloc: string -> string, clock: nat -> string,
                            dumps: Metadata -> string, md5: string -> string, loads: JsonDecoder)
    requires i < |articles|
    requires forall j :: i < j < |articles| ==> md5(articles[j].0) != md5(articles[i].0)
    requires var m := ArticleMetadata(articles[i].0, netloc, clock(i));
      && !Contains(dumps(m), ContentDelimiter) && !Contains(dumps(m), MetadataDelimiter)
      && '\r' !in dumps(m)
      && loads(Strip(dumps(m))) == Some(m)
    requires !Contains(articles[i].1, ContentDelimiter)
    ensures var d := SaveAll(dir, articles, netloc, clock, dumps, md5);
      var name := GenerateFilename(articles[i].0, md5);
      && name in d && EndsWith(name, ".txt")
      && ReadRecord(d[name], loads)
         == Document(Strip(ReadText(articles[i].1)),
                     map["source" := netloc(articles[i].0), "url" := articles[i].0, "crawl_time" := clock(i)])
  {
    SavedRecordKept(dir, articles, i, netloc, clock, dumps, md5);
    var m := ArticleMetadata(articles[i].0, netloc, clock(i));
    ReadBack(dumps(m), articles[i].1, loads, m);
  }
}
