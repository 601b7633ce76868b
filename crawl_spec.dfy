/** The depth-bounded crawl as a function of the site: what `analyze_page`
    leaves behind in the visited set, the word counts and the metadata
    dictionary, with the properties the analyser relies on. */
module Crawl {
  import TextNorm
  import Words
  import LinkFilter
  import JsonLd
  import Metadata
  import opened Counter

  /** What fetching and parsing one URL yields: the text of the page (its
      `get_text()`), its `<meta>` tags, its parsed JSON-LD documents and
      the targets of its `<a href>` links, already resolved against the
      page's URL. */
  datatype Page = Page(
    text: string,
    tags: seq<Metadata.MetaTag>,
    scripts: seq<JsonLd.Json>,
    links: seq<string>)

  /** The web as the crawler sees it. A URL that is not in the map is one
      whose fetch failed or returned no content. */
  type Site = map<string, Page>

  /** How deep the crawl goes, how a page's text becomes its word set and
      which links it follows. The analyser's own rules are `Standard`'s. */
  datatype Setup = Setup(
    maxDepth: int,
    pageWords: string -> set<string>,
    follows: (string, string) -> bool)

  /** The analyser's rules: the words of the normalised text, and
      `should_follow_link`. */
  function Standard(maxDepth: int, minWordLength: nat): (s: Setup)
    ensures s.maxDepth == maxDepth
  {
    Setup(maxDepth,
          t => Words.ExtractWordsAdvanced(TextNorm.NormaliseText(t), minWordLength),
          (link, base) => LinkFilter.PassesFilter(link, base))
  }

  /** The part of the analyser that the crawl changes. */
  datatype State = State(
    visited: set<string>,
    words: map<string, nat>,
    metadata: Metadata.Store)

  const Empty: State := State({}, map[], map[])

  /** What reading a fetched page does, before its links are followed. */
  function Absorb(setup: Setup, st: State, page: Page): State {
    st.(words := AddOnce(st.words, setup.pageWords(page.text)),
        metadata := Metadata.AppendAll(st.metadata, Metadata.PagePairs(page.tags, page.scripts)))
  }

  /** What `analyze_page` as written hands to the metadata extraction: the
      document after its script elements were removed, so that no JSON-LD
      script is left for it to find. */
  function AbsorbAsWritten(setup: Setup, st: State, page: Page): State {
    Absorb(setup, st, page.(scripts := []))
  }

  /** As written, reading a page never adds to the JSON-LD list. */
  lemma AsWrittenDropsJsonLd(setup: Setup, st: State, page: Page)
    ensures Metadata.Bucket(AbsorbAsWritten(setup, st, page).metadata, Metadata.JsonLdKey) ==
            Metadata.Bucket(st.metadata, Metadata.JsonLdKey)
  {
    Metadata.PageJsonLd(st.metadata, page.tags, []);
  }

  /** Read before the scripts are removed, a page adds exactly the lines of
      its JSON-LD documents to the JSON-LD list. */
  lemma AbsorbKeepsJsonLd(setup: Setup, st: State, page: Page)
    ensures Metadata.Bucket(Absorb(setup, st, page).metadata, Metadata.JsonLdKey) ==
            Metadata.Bucket(st.metadata, Metadata.JsonLdKey) + Metadata.ScriptsEntries(page.scripts)
  {
    Metadata.PageJsonLd(st.metadata, page.tags, page.scripts);
  }

  /** The two readings differ in one place only: the corrected one is the
      as-written one with the JSON-LD list grown by the lines of the page's
      JSON-LD documents; the words and every other metadata list agree. */
  lemma AbsorbAgreesElsewhere(setup: Setup, st: State, page: Page)
    ensures Absorb(setup, st, page) ==
            AbsorbAsWritten(setup, st, page).(metadata := Metadata.Extend(
              AbsorbAsWritten(setup, st, page).metadata, Metadata.JsonLdKey,
              Metadata.ScriptsEntries(page.scripts)))
  {
    var K := Metadata.JsonLdKey;
    var tagPairs := Metadata.MetaPairs(page.tags) + Metadata.OgPairs(page.tags);
    var vs := Metadata.ScriptsEntries(page.scripts);
    assert Metadata.PagePairs(page.tags, []) == tagPairs;
    Metadata.AppendAllConcat(st.metadata, tagPairs, Metadata.Tagged(K, vs));
    Metadata.TaggedIsExtend(Metadata.AppendAll(st.metadata, tagPairs), K, vs);
  }

  /** A page whose only JSON-LD document describes a product: as written
      nothing is recorded, read before the scripts are removed three lines
      are. */
  lemma JsonLdLostExample(setup: Setup, page: Page, d: JsonLd.Json)
    requires d == JsonLd.JObject([("@type", JsonLd.JString("Thing")), ("name", JsonLd.JString("Widget")),
                                  ("sku", JsonLd.JString("A1")), ("price", JsonLd.JNumber(9.5)),
                                  ("brand", JsonLd.JObject([("name", JsonLd.JString("Acme"))]))])
    requires page.scripts == [d]
    ensures Metadata.Bucket(AbsorbAsWritten(setup, Empty, page).metadata, Metadata.JsonLdKey) == []
    ensures Metadata.Bucket(Absorb(setup, Empty, page).metadata, Metadata.JsonLdKey) ==
            ["@type: Thing", "name: Widget", "name: Acme"]
  {
    AsWrittenDropsJsonLd(setup, Empty, page);
    AbsorbKeepsJsonLd(setup, Empty, page);
    JsonLd.ProductExample(d);
    assert page.scripts[..0] == [];
  }

  /** How many more levels the crawl may still go down from `depth`. */
  function Budget(setup: Setup, depth: int): nat {
    if depth > setup.maxDepth then 0 else setup.maxDepth - depth + 1
  }

  /** `analyze_page(url, depth)`: refused when too deep or already seen;
      otherwise the URL is marked, the page read and, above the last level,
      its approved links visited one level down. */
  function Visit(site: Site, setup: Setup, st: State, url: string, depth: int): State
    decreases Budget(setup, depth), 0, 0
  {
    if depth > setup.maxDepth || url in st.visited then st
    else
      var marked := st.(visited := st.visited + {url});
      if url !in site then marked
      else
        var read := Absorb(setup, marked, site[url]);
        if depth < setup.maxDepth then Follow(site, setup, read, url, |site[url].links|, depth)
        else read
  }

  /** The loop over the first `n` links of the page `from`, which sits at
      `depth`. */
  function Follow(site: Site, setup: Setup, st: State, from: string, n: nat, depth: int): State
    requires from in site && n <= |site[from].links| && depth < setup.maxDepth
    decreases Budget(setup, depth + 1), 1, n
  {
    if n == 0 then st
    else
      var before := Follow(site, setup, st, from, n - 1, depth);
      var link := site[from].links[n - 1];
      if setup.follows(link, from) then Visit(site, setup, before, link, depth + 1)
      else before
  }

  // ---------------------------------------------------------------------
  // The cases of one visit
  // ---------------------------------------------------------------------

  /** The guard, the failed fetch and the last level, read off the
      definition. */
  lemma VisitCases(site: Site, setup: Setup, st: State, url: string, depth: int)
    ensures depth > setup.maxDepth || url in st.visited ==> Visit(site, setup, st, url, depth) == st
    ensures depth <= setup.maxDepth && url !in st.visited && url !in site ==>
              Visit(site, setup, st, url, depth) == st.(visited := st.visited + {url})
    ensures depth == setup.maxDepth && url !in st.visited && url in site ==>
              Visit(site, setup, st, url, depth) ==
              Absorb(setup, st.(visited := st.visited + {url}), site[url])
  {
  }

  /** Above the last level, a fetched page's links are followed after it
      is read. */
  lemma VisitFollows(site: Site, setup: Setup, st: State, url: string, depth: int)
    requires depth < setup.maxDepth && url !in st.visited && url in site
    ensures Visit(site, setup, st, url, depth) ==
            Follow(site, setup, Absorb(setup, st.(visited := st.visited + {url}), site[url]),
                   url, |site[url].links|, depth)
  {
  }

  /** One more link of the page: followed when the rules approve it. */
  lemma FollowStep(site: Site, setup: Setup, st: State, from: string, n: nat, depth: int)
    requires from in site && n < |site[from].links| && depth < setup.maxDepth
    ensures Follow(site, setup, st, from, n + 1, depth) ==
            if setup.follows(site[from].links[n], from)
            then Visit(site, setup, Follow(site, setup, st, from, n, depth), site[from].links[n], depth + 1)
            else Follow(site, setup, st, from, n, depth)
  {
  }

  /** With no level below the first, one call marks exactly its own URL. */
  lemma OneLevelOneUrl(site: Site, setup: Setup, st: State, url: string)
    requires setup.maxDepth == 0 && url !in st.visited
    ensures Visit(site, setup, st, url, 0).visited == st.visited + {url}
  {
  }

  /** Resubmitting a URL already seen changes nothing, at any depth. */
  lemma RevisitNoOp(site: Site, setup: Setup, st: State, urls: seq<string>, depth: int)
    requires forall u :: u in urls ==> u in st.visited
    ensures forall u :: u in urls ==> Visit(site, setup, st, u, depth) == st
  {
  }

  // ---------------------------------------------------------------------
  // Only growth
  // ---------------------------------------------------------------------

  /** `b` is a later state than `a`: nothing leaves the visited set, no
      count goes down, no metadata list loses an entry, and no count grows
      by more than the number of URLs newly visited, so a word is counted
      at most once per page. */
  ghost predicate Grows(a: State, b: State) {
    a.visited <= b.visited &&
    (forall w :: Count(a.words, w) <= Count(b.words, w) &&
                 Count(b.words, w) - Count(a.words, w) <= |b.visited| - |a.visited|) &&
    (forall k :: Metadata.Bucket(a.metadata, k) <= Metadata.Bucket(b.metadata, k))
  }

  lemma GrowsRefl(a: State)
    ensures Grows(a, a)
  {
  }

  lemma GrowsTrans(a: State, b: State, c: State)
    requires Grows(a, b) && Grows(b, c)
    ensures Grows(a, c)
  {
    forall k
      ensures Metadata.Bucket(a.metadata, k) <= Metadata.Bucket(c.metadata, k)
    {
      assert Metadata.Bucket(a.metadata, k) <= Metadata.Bucket(b.metadata, k);
      assert Metadata.Bucket(b.metadata, k) <= Metadata.Bucket(c.metadata, k);
    }
  }

  /** Marking a new URL and reading its page is growth. */
  lemma AbsorbGrows(setup: Setup, st: State, url: string, page: Page)
    requires url !in st.visited
    ensures Grows(st, Absorb(setup, st.(visited := st.visited + {url}), page))
  {
    var marked := st.(visited := st.visited + {url});
    var r := Absorb(setup, marked, page);
    assert |marked.visited| == |st.visited| + 1;
    forall k
      ensures Metadata.Bucket(st.metadata, k) <= Metadata.Bucket(r.metadata, k)
    {
      Metadata.AppendAllBucket(st.metadata, Metadata.PagePairs(page.tags, page.scripts), k);
    }
  }

  lemma {:induction false} VisitGrows(site: Site, setup: Setup, st: State, url: string, depth: int)
    ensures Grows(st, Visit(site, setup, st, url, depth))
    ensures depth <= setup.maxDepth ==> url in Visit(site, setup, st, url, depth).visited
    decreases Budget(setup, depth), 0, 0
  {
    if depth > setup.maxDepth || url in st.visited {
      GrowsRefl(st);
    } else {
      var marked := st.(visited := st.visited + {url});
      if url !in site {
        assert |marked.visited| == |st.visited| + 1;
      } else {
        var read := Absorb(setup, marked, site[url]);
        AbsorbGrows(setup, st, url, site[url]);
        if depth < setup.maxDepth {
          FollowGrows(site, setup, read, url, |site[url].links|, depth);
          GrowsTrans(st, read, Follow(site, setup, read, url, |site[url].links|, depth));
        }
      }
    }
  }

  lemma {:induction false} FollowGrows(site: Site, setup: Setup, st: State, from: string, n: nat, depth: int)
    requires from in site && n <= |site[from].links| && depth < setup.maxDepth
    ensures Grows(st, Follow(site, setup, st, from, n, depth))
    decreases Budget(setup, depth + 1), 1, n
  {
    if n == 0 {
      GrowsRefl(st);
    } else {
      var before := Follow(site, setup, st, from, n - 1, depth);
      var link := site[from].links[n - 1];
      FollowGrows(site, setup, st, from, n - 1, depth);
      if setup.follows(link, from) {
        var after := Visit(site, setup, before, link, depth + 1);
        assert Follow(site, setup, st, from, n, depth) == after;
        VisitGrows(site, setup, before, link, depth + 1);
        GrowsTrans(st, before, after);
      } else {
        assert Follow(site, setup, st, from, n, depth) == before;
      }
    }
  }

  /** A whole crawl from nothing: every word's count is at most the number
      of URLs visited, since each URL is read at most once. */
  lemma CountsBoundedByPages(site: Site, setup: Setup, url: string, w: string)
    ensures Count(Visit(site, setup, Empty, url, 0).words, w) <= |Visit(site, setup, Empty, url, 0).visited|
  {
    VisitGrows(site, setup, Empty, url, 0);
  }

  // ---------------------------------------------------------------------
  // Only approved links
  // ---------------------------------------------------------------------

  /** `u` is the target of a link of some page that the filter approves
      from that page. */
  ghost predicate Approved(site: Site, setup: Setup, u: string) {
    exists p :: p in site && u in site[p].links && setup.follows(u, p)
  }

  /** A crawl never goes anywhere but its starting URL and approved links:
      in particular never to another host. */
  lemma {:induction false} VisitApproved(site: Site, setup: Setup, st: State, url: string, depth: int)
    ensures forall u :: u in Visit(site, setup, st, url, depth).visited && u !in st.visited ==>
                        u == url || Approved(site, setup, u)
    decreases Budget(setup, depth), 0, 0
  {
    if depth <= setup.maxDepth && url !in st.visited && url in site && depth < setup.maxDepth {
      var read := Absorb(setup, st.(visited := st.visited + {url}), site[url]);
      FollowApproved(site, setup, read, url, |site[url].links|, depth);
    }
  }

  lemma {:induction false} FollowApproved(site: Site, setup: Setup, st: State, from: string, n: nat, depth: int)
    requires from in site && n <= |site[from].links| && depth < setup.maxDepth
    ensures forall u :: u in Follow(site, setup, st, from, n, depth).visited && u !in st.visited ==>
                        Approved(site, setup, u)
    decreases Budget(setup, depth + 1), 1, n
  {
    if n > 0 {
      var before := Follow(site, setup, st, from, n - 1, depth);
      var link := site[from].links[n - 1];
      FollowApproved(site, setup, st, from, n - 1, depth);
      if setup.follows(link, from) {
        VisitApproved(site, setup, before, link, depth + 1);
        assert Approved(site, setup, link);
      }
    }
  }

  /** With the analyser's rules, every URL a crawl reaches besides its start
      is the target of a link of some page, not on another host than that
      page and not of a refused kind. */
  lemma StandardStaysOnSite(site: Site, maxDepth: int, minWordLength: nat, st: State,
                            url: string, depth: int, u: string)
    requires u in Visit(site, Standard(maxDepth, minWordLength), st, url, depth).visited
    requires u !in st.visited && u != url
    ensures exists p :: p in site && u in site[p].links && LinkFilter.Follows(u, p)
  {
    var setup := Standard(maxDepth, minWordLength);
    VisitApproved(site, setup, st, url, depth);
    var p :| p in site && u in site[p].links && setup.follows(u, p);
    assert setup.follows(u, p) == LinkFilter.PassesFilter(u, p);
    LinkFilter.FilterIsRule(u, p);
  }
}
