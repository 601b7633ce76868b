/** The analyser object: its visited set, its word counter and its metadata
    dictionary, updated in place by the crawl, and the word lists it derives
    from them. Each method is proved against the functions of the crawl,
    metadata and word-list modules. */
module Analyzer {
  import opened Chars
  import opened Counter
  import JsonLd
  import Metadata
  import Crawl
  import Wordlists

  class AdvancedCeWL {
    /** The site the analyser fetches from, standing for the network. */
    const site: Crawl.Site
    const maxDepth: int
    const minWordLength: nat
    /** How a page's text becomes its words and which links are followed:
        `extract_words_advanced` on the normalised text, and
        `should_follow_link`, as the constructor sets them. */
    const rules: Crawl.Setup

    var visitedUrls: set<string>
    /** The counter: each word's count, and its keys in the order they were
        first counted, which is the order the counter iterates them in. */
    var words: map<string, nat>
    var wordOrder: seq<string>
    var metadata: Metadata.Store

    ghost predicate Valid()
      reads this
    {
      rules.maxDepth == maxDepth && KeyOrder(wordOrder, words)
    }

    /** The part of the object the crawl specification speaks about. */
    function State(): Crawl.State
      reads this
    {
      Crawl.State(visitedUrls, words, metadata)
    }

    constructor(site: Crawl.Site, maxDepth: int := 2, minWordLength: nat := 3)
      ensures this.site == site && this.maxDepth == maxDepth && this.minWordLength == minWordLength
      ensures rules == Crawl.Standard(maxDepth, minWordLength)
      ensures State() == Crawl.Empty && wordOrder == [] && Valid()
    {
      this.site := site;
      this.maxDepth := maxDepth;
      this.minWordLength := minWordLength;
      rules := Crawl.Standard(maxDepth, minWordLength);
      visitedUrls := {};
      words := map[];
      wordOrder := [];
      metadata := map[];
    }

    /** `self.words[word] += 1` for every word of a page's set. */
    method FoldWords(ws: set<string>)
      requires Valid()
      modifies this`words, this`wordOrder
      ensures Valid() && old(wordOrder) <= wordOrder
      ensures words == AddOnce(old(words), ws)
    {
      ghost var start := words;
      var rest := ws;
      while rest != {}
        invariant rest <= ws
        invariant CountsOnce(words, start, ws - rest)
        invariant Valid() && old(wordOrder) <= wordOrder
        decreases rest
      {
        var w :| w in rest;
        FoldStep(words, wordOrder, start, ws, rest, w);
        // A new key joins the counter's order at the end.
        if w !in words {
          wordOrder := wordOrder + [w];
        }
        words := words[w := Count(words, w) + 1];
        rest := rest - {w};
      }
      assert ws - rest == ws;
      CountsOnceIsAddOnce(words, start, ws);
    }

    /** `extract_json_ld(data)`: the lines of `data` appended to the
        `json_ld` list, in the order the walk finds them. */
    method ExtractJsonLd(data: JsonLd.Json)
      modifies this`metadata
      ensures metadata == Metadata.Extend(old(metadata), Metadata.JsonLdKey, JsonLd.Entries(data))
      decreases data, 2
    {
      match data {
        case JObject(ms) => ExtractMembers(data);
        case JArray(items) => ExtractItems(data);
        case _ =>
      }
    }

    /** The loop over a dictionary's items. */
    method ExtractMembers(data: JsonLd.Json)
      requires data.JObject?
      modifies this`metadata
      ensures metadata == Metadata.Extend(old(metadata), Metadata.JsonLdKey, JsonLd.MembersEntries(data, |data.members|))
      decreases data, 1
    {
      ghost var start := metadata;
      for i := 0 to |data.members|
        invariant metadata == Metadata.Extend(start, Metadata.JsonLdKey, JsonLd.MembersEntries(data, i))
      {
        ExtractMember(data, i);
        Metadata.ExtendTwice(start, Metadata.JsonLdKey, JsonLd.MembersEntries(data, i), JsonLd.MemberEntries(data, i));
        JsonLd.MembersEntriesStep(data, i);
      }
    }

    /** One item of a dictionary: a long enough string is recorded, a list
        or dictionary walked, anything else skipped. */
    method ExtractMember(data: JsonLd.Json, i: nat)
      requires data.JObject? && i < |data.members|
      modifies this`metadata
      ensures metadata == Metadata.Extend(old(metadata), Metadata.JsonLdKey, JsonLd.MemberEntries(data, i))
      decreases data, 0
    {
      var (key, value) := data.members[i];
      if value.JString? && |value.s| > 2 {
        metadata := Metadata.Append(metadata, Metadata.JsonLdKey, JsonLd.Line(key, value.s));
      } else if value.JArray? || value.JObject? {
        ExtractJsonLd(value);
      }
    }

    /** The loop over a list's items. */
    method ExtractItems(data: JsonLd.Json)
      requires data.JArray?
      modifies this`metadata
      ensures metadata == Metadata.Extend(old(metadata), Metadata.JsonLdKey, JsonLd.ItemsEntries(data, |data.items|))
      decreases data, 1
    {
      ghost var start := metadata;
      for i := 0 to |data.items|
        invariant metadata == Metadata.Extend(start, Metadata.JsonLdKey, JsonLd.ItemsEntries(data, i))
      {
        ExtractItem(data, i);
        Metadata.ExtendTwice(start, Metadata.JsonLdKey, JsonLd.ItemsEntries(data, i), JsonLd.ItemEntries(data, i));
        JsonLd.ItemsEntriesStep(data, i);
      }
    }

    /** One item of a list, walked in turn. */
    method ExtractItem(data: JsonLd.Json, i: nat)
      requires data.JArray? && i < |data.items|
      modifies this`metadata
      ensures metadata == Metadata.Extend(old(metadata), Metadata.JsonLdKey, JsonLd.ItemEntries(data, i))
      decreases data, 0
    {
      ExtractJsonLd(data.items[i]);
    }

    /** `extract_metadata`: the `<meta>` loop, the OpenGraph loop and the
        JSON-LD loop, in that order. */
    method ExtractMetadata(tags: seq<Metadata.MetaTag>, scripts: seq<JsonLd.Json>)
      modifies this`metadata
      ensures metadata == Metadata.AppendAll(old(metadata), Metadata.PagePairs(tags, scripts))
    {
      ExtractMetaTags(tags);
      ghost var afterMeta := metadata;
      ExtractOpenGraph(tags);
      ghost var afterOg := metadata;
      ExtractScripts(scripts);
      Metadata.TaggedIsExtend(afterOg, Metadata.JsonLdKey, Metadata.ScriptsEntries(scripts));
      Metadata.AppendAllConcat(old(metadata), Metadata.MetaPairs(tags), Metadata.OgPairs(tags));
      Metadata.AppendAllConcat(old(metadata), Metadata.MetaPairs(tags) + Metadata.OgPairs(tags),
                               Metadata.Tagged(Metadata.JsonLdKey, Metadata.ScriptsEntries(scripts)));
    }

    /** Every `<meta>` tag with a content, under `meta_` and its lower-cased
        name. */
    method ExtractMetaTags(tags: seq<Metadata.MetaTag>)
      modifies this`metadata
      ensures metadata == Metadata.AppendAll(old(metadata), Metadata.MetaPairs(tags))
    {
      ghost var start := metadata;
      for i := 0 to |tags|
        invariant metadata == Metadata.AppendAll(start, Metadata.MetaPairs(tags[..i]))
      {
        var name := Lower(tags[i].name);
        var content := tags[i].content;
        Metadata.MetaPairsStep(tags, i);
        if content != "" {
          Metadata.AppendAllSnoc(start, Metadata.MetaPairs(tags[..i]), "meta_" + name, content);
          metadata := Metadata.Append(metadata, "meta_" + name, content);
        }
      }
      assert tags[..|tags|] == tags;
    }

    /** Every OpenGraph tag with a content, under its property. */
    method ExtractOpenGraph(tags: seq<Metadata.MetaTag>)
      modifies this`metadata
      ensures metadata == Metadata.AppendAll(old(metadata), Metadata.OgPairs(tags))
    {
      ghost var start := metadata;
      for i := 0 to |tags|
        invariant metadata == Metadata.AppendAll(start, Metadata.OgPairs(tags[..i]))
      {
        Metadata.OgPairsStep(tags, i);
        if Metadata.IsOpenGraph(tags[i]) {
          var prop := tags[i].property;
          var content := tags[i].content;
          if content != "" {
            Metadata.AppendAllSnoc(start, Metadata.OgPairs(tags[..i]), prop, content);
            metadata := Metadata.Append(metadata, prop, content);
          }
        }
      }
      assert tags[..|tags|] == tags;
    }

    /** Every JSON-LD document walked in turn. */
    method ExtractScripts(scripts: seq<JsonLd.Json>)
      modifies this`metadata
      ensures metadata == Metadata.Extend(old(metadata), Metadata.JsonLdKey, Metadata.ScriptsEntries(scripts))
    {
      ghost var start := metadata;
      for i := 0 to |scripts|
        invariant metadata == Metadata.Extend(start, Metadata.JsonLdKey, Metadata.ScriptsEntries(scripts[..i]))
      {
        ExtractJsonLd(scripts[i]);
        Metadata.ExtendTwice(start, Metadata.JsonLdKey, Metadata.ScriptsEntries(scripts[..i]), JsonLd.Entries(scripts[i]));
        Metadata.ScriptsEntriesStep(scripts, i);
      }
      assert scripts[..|scripts|] == scripts;
    }

    /** `analyze_page(url, depth)`: the guard, the mark, the fetch, the
        reading of the page and, above the last level, its links. */
    method AnalyzePage(url: string, depth: int)
      requires Valid()
      modifies this
      ensures Valid() && old(wordOrder) <= wordOrder
      ensures State() == Crawl.Visit(site, rules, old(State()), url, depth)
      decreases Crawl.Budget(rules, depth), 0
    {
      Crawl.VisitCases(site, rules, State(), url, depth);
      if depth > maxDepth || url in visitedUrls {
        return;
      }
      ghost var st := State();
      visitedUrls := visitedUrls + {url};
      if url !in site {
        return;
      }
      ReadPage(url);
      if depth < maxDepth {
        Crawl.VisitFollows(site, rules, st, url, depth);
        FollowLinks(url, depth);
      }
    }

    /** What is done with a fetched page before its links: its words counted
        and its metadata recorded, the metadata read before the page's
        scripts are removed. */
    method ReadPage(url: string)
      requires Valid() && url in site
      modifies this`words, this`wordOrder, this`metadata
      ensures Valid() && old(wordOrder) <= wordOrder
      ensures State() == Crawl.Absorb(rules, old(State()), site[url])
    {
      var page := site[url];
      var pageWords := rules.pageWords(page.text);
      FoldWords(pageWords);
      ExtractMetadata(page.tags, page.scripts);
    }

    /** The loop over the links of the page `url`, at `depth`. */
    method FollowLinks(url: string, depth: int)
      requires Valid() && url in site && depth < maxDepth
      modifies this
      ensures Valid() && old(wordOrder) <= wordOrder
      ensures State() == Crawl.Follow(site, rules, old(State()), url, |site[url].links|, depth)
      decreases Crawl.Budget(rules, depth + 1), 1
    {
      var links := site[url].links;
      ghost var start := State();
      for i := 0 to |links|
        invariant Valid() && old(wordOrder) <= wordOrder
        invariant State() == Crawl.Follow(site, rules, start, url, i, depth)
      {
        var link := links[i];
        var follow := rules.follows(link, url);
        Crawl.FollowStep(site, rules, start, url, i, depth);
        if follow {
          AnalyzePage(link, depth + 1);
        }
      }
    }

    /** `analyze_site(start_url)`: the crawl from depth 0, then, for a small
        site, every visited URL submitted again at depth 1. The guard of
        `analyze_page` turns each of those calls away, so the second phase
        changes nothing. */
    method AnalyzeSite(startUrl: string)
      requires Valid()
      modifies this
      ensures Valid() && old(wordOrder) <= wordOrder
      ensures State() == Crawl.Visit(site, rules, old(State()), startUrl, 0)
    {
      AnalyzePage(startUrl, 0);
      if |visitedUrls| < 50 {
        ghost var crawled := State();
        ghost var crawledOrder := wordOrder;
        var pending := visitedUrls;
        while pending != {}
          invariant Valid() && pending <= visitedUrls
          invariant State() == crawled && wordOrder == crawledOrder
          decreases pending
        {
          var url :| url in pending;
          Crawl.VisitCases(site, rules, State(), url, 1);
          AnalyzePage(url, 1);
          KeyOrderSame(crawledOrder, wordOrder, words);
          pending := pending - {url};
        }
      }
    }

    /** The password candidates: every word of six characters or more with
        its four variants. */
    method PasswordWords() returns (passwordWords: set<string>)
      requires Valid()
      ensures passwordWords == Wordlists.PasswordSet(wordOrder)
    {
      passwordWords := {};
      for i := 0 to |wordOrder|
        invariant passwordWords == Wordlists.PasswordSet(wordOrder[..i])
      {
        var word := wordOrder[i];
        assert wordOrder[..i + 1][..i] == wordOrder[..i];
        if |word| >= 6 {
          Wordlists.MutationSet(word);
          passwordWords := passwordWords + {word, word + "123", word + "!", word + "2024", word + "1"};
        }
      }
      assert wordOrder[..|wordOrder|] == wordOrder;
    }

    /** The endpoint list: for each API pattern in turn, one pair per word of
        three characters or more. */
    method EndpointList() returns (endpoints: seq<seq<string>>)
      requires Valid()
      ensures endpoints == Wordlists.Endpoints(wordOrder)
    {
      var long := Wordlists.LongWords(wordOrder);
      endpoints := [];
      for k := 0 to |Wordlists.ApiPatterns|
        invariant endpoints == Wordlists.EndpointsUpTo(long, k)
      {
        endpoints := endpoints + Wordlists.PairsFor(Wordlists.ApiPatterns[k], long);
      }
    }

    /** `generate_wordlists()`: reads the counter and changes nothing. */
    method GenerateWordlists() returns (lists: Wordlists.Wordlists)
      requires Valid()
      ensures lists.basic == Wordlists.MostCommon(wordOrder, words)
      ensures Wordlists.Increasing(lists.passwords)
      ensures forall x :: x in lists.passwords <==> x in Wordlists.PasswordSet(wordOrder)
      ensures lists.usernames == Wordlists.Usernames(wordOrder)
      ensures lists.directories == Wordlists.Directories(wordOrder)
      ensures lists.endpoints == Wordlists.Endpoints(wordOrder)
    {
      var basic := Wordlists.MostCommon(wordOrder, words);
      var passwordWords := PasswordWords();
      var passwords := Wordlists.SortStrings(passwordWords);
      var endpoints := EndpointList();
      lists := Wordlists.Wordlists(basic, passwords, Wordlists.Usernames(wordOrder),
                                   Wordlists.Directories(wordOrder), endpoints);
    }
  }
}
