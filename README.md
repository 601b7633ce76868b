# CeWL++ crawl-and-derive core, modelled in Dafny

CeWL++ (`cewlplus.py`) is a web word-list harvester built around the class
`AdvancedCeWL`. Starting from one URL, `analyze_page` crawls a site down to a
maximum depth and never visits a URL twice. For each fetched page it:

- normalises the page text;
- extracts a set of candidate words with four regular-expression strategies
  and counts each word once per page;
- records the page's `<meta>` and OpenGraph metadata in a dictionary of
  lists. It also looks for JSON-LD metadata, but as the code is written
  the page's scripts are already removed by then, so none is found (see
  "## Findings");
- follows the links that `should_follow_link` approves, one level deeper.

`analyze_site` runs that crawl and then re-submits every visited URL at
depth 1. `generate_wordlists` derives five word lists from the counter:
frequency order, password candidates, user names, directories and API
endpoints. The report gives the number of URLs, the number of distinct words
and the 20 most common words.

The project is laid out like this:

- `chars.dfy` — the character classes: ASCII letters and digits, `\w` read
  as ASCII letters, digits and `_`, Python's `\s`, line boundaries, and
  case-insensitive comparison.
- `scan.dfy` — the five `re.findall` scanners, written as left-to-right
  matchers with Python's greedy and backtracking order and `\b`.
- `words.dfy` — `extract_words_advanced`.
- `text_norm.dfy` — the text normalisation of `analyze_page`.
- `link_filter.dfy` — `should_follow_link`, with a model of `urlparse`'s
  `netloc`.
- `json_ld.dfy` — the JSON-LD walk.
- `metadata.dfy` — the metadata dictionary and the tag loops.
- `counter.dfy` — the word counter.
- `crawl_spec.dfy` — the crawl as a function of the site.
- `wordlists.dfy` — the word lists and the report.
- `analyzer.dfy` — the class `AdvancedCeWL`. Its fields (visited set, counter
  with its key order, metadata dictionary) are updated in place by methods
  proved against the functions above.

The network is a parameter: a `Site` maps each URL to what fetching and
parsing it yields. That is the page text, its meta tags, its parsed JSON-LD
documents and its resolved link targets. A URL missing from the map is a
failed or empty fetch.

The class reaches `extract_words_advanced` (on the normalised text) and
`should_follow_link` through its `rules` field. The constructor sets that
field to `Crawl.Standard`, whose page words are `Words.ExtractWordsAdvanced`
of the normalised text and whose link test is `LinkFilter.ShouldFollowLink`.
The crawl lemmas hold for any rules.

The class crawl reads a page's JSON-LD documents before the scripts are
removed: it follows the corrected order of the "## Findings" row.
`Crawl.AbsorbAgreesElsewhere` states exactly what that changes: the
as-written reading leaves the same state except that the `json_ld` list
does not grow.

Two points where the code decides what happens:

- The re-scan in `analyze_site` (cewlplus.py:329-330) calls the guarded
  `analyze_page`. Every URL it submits is already visited, so, run one after
  another, the re-scan changes nothing. `AnalyzeSite` proves exactly this.
- For the text `getUserName`, the camelCase strategy yields `get` and `user`,
  and the plain strategy yields `getusername`. No strategy yields `name`:
  `[a-z]+[A-Z][a-z]+` matches only `getUser`. See `Words.GetUserName`.

## Model

| member | source | states |
|---|---|---|
| Analyzer.AdvancedCeWL.constructor | cewlplus.py:27-36 | starts with no visited URL, an empty counter and empty metadata; the depth and minimum word length are those given, with defaults 2 and 3 |
| Analyzer.AdvancedCeWL.AnalyzePage | cewlplus.py:178-217 | the new visited set, counts and metadata are exactly `Crawl.Visit` of the old ones; the counter's key order only grows |
| Analyzer.AdvancedCeWL.ReadPage | cewlplus.py:197-208 | reading a fetched page adds its word set once to the counter and appends its metadata, as `Crawl.Absorb` |
| Analyzer.AdvancedCeWL.FollowLinks | cewlplus.py:211-217 | the link loop leaves exactly `Crawl.Follow` over all of the page's links: each approved link visited at depth + 1, in order |
| Analyzer.AdvancedCeWL.FoldWords | cewlplus.py:203-205 | every word of the page's set counted exactly once more, every other count unchanged; first-seen words join the key order at its end |
| Analyzer.AdvancedCeWL.AnalyzeSite | cewlplus.py:318-333 | the whole run, re-scan included, leaves the same state as the single crawl from the start URL at depth 0 |
| Analyzer.AdvancedCeWL.ExtractJsonLd | cewlplus.py:166-176 | the `json_ld` list grows at its end by exactly `JsonLd.Entries(data)`, and no other key changes |
| Analyzer.AdvancedCeWL.ExtractMembers | cewlplus.py:168-173 | the dictionary loop appends the lines of all members, in member order |
| Analyzer.AdvancedCeWL.ExtractMember | cewlplus.py:169-173 | one member: its own `key: value` line when the value is a string longer than 2, else what its nested list or dictionary records, else nothing |
| Analyzer.AdvancedCeWL.ExtractItems | cewlplus.py:174-176 | the list loop appends the lines of all items, in item order |
| Analyzer.AdvancedCeWL.ExtractItem | cewlplus.py:175-176 | one item: exactly the lines that item records |
| Analyzer.AdvancedCeWL.ExtractMetadata | cewlplus.py:139-164 | the dictionary after `extract_metadata` is the old one with the meta loop's, the OpenGraph loop's and the JSON-LD loop's appends performed in that order |
| Analyzer.AdvancedCeWL.ExtractMetaTags | cewlplus.py:142-147 | each tag with a non-empty content appended under `meta_` plus its lower-cased name, in document order |
| Analyzer.AdvancedCeWL.ExtractOpenGraph | cewlplus.py:150-155 | each `og:` tag with a non-empty content appended under its property, in document order |
| Analyzer.AdvancedCeWL.ExtractScripts | cewlplus.py:158-162 | the `json_ld` list grows by the lines of every document, one document after the other |
| Analyzer.AdvancedCeWL.PasswordWords | cewlplus.py:252-260 | the password set is exactly `Wordlists.PasswordSet` of the counter's words |
| Analyzer.AdvancedCeWL.EndpointList | cewlplus.py:269-273 | the endpoint list is exactly `Wordlists.Endpoints` of the counter's words |
| Analyzer.AdvancedCeWL.GenerateWordlists | cewlplus.py:245-275 | `basic` is `most_common()` order; `passwords` is strictly increasing and holds exactly the password set; `usernames`, `directories` and `endpoints` are the comprehensions over the counter's words |
| Crawl.VisitCases | cewlplus.py:180-188 | too deep or already visited: no change at all; not fetched: only the URL is marked; at the last level: the URL is marked and the page read, and no link is followed |
| Crawl.VisitFollows | cewlplus.py:211-217 | above the last level, a fetched page's links are followed after the page is read |
| Crawl.FollowStep | cewlplus.py:213-217 | one more link: visited at depth + 1 exactly when the filter approves it from the page |
| Crawl.OneLevelOneUrl | cewlplus.py:180-183 | with `max_depth = 0` exactly one URL enters the visited set |
| Crawl.RevisitNoOp | cewlplus.py:326-333 | submitting URLs that are already visited changes nothing, at any depth |
| Crawl.GrowsTrans | cewlplus.py:178-217 | growth (visited only grows, counts never drop, lists are only appended to, counts grow by at most the number of new URLs) composes |
| Crawl.AbsorbGrows | cewlplus.py:183-208 | marking a new URL and reading its page is growth |
| Crawl.VisitGrows | cewlplus.py:178-217 | one call is growth and, unless too deep, leaves its URL visited |
| Crawl.FollowGrows | cewlplus.py:211-217 | the link loop is growth |
| Crawl.CountsBoundedByPages | cewlplus.py:203-205 | after a crawl from nothing, every word's count is at most the number of URLs visited |
| Crawl.VisitApproved | cewlplus.py:211-217 | every URL a call adds to the visited set is its own URL or a link approved from some page |
| Crawl.FollowApproved | cewlplus.py:213-217 | every URL the link loop adds is a link approved from some page |
| Crawl.StandardStaysOnSite | cewlplus.py:211-243 | with the analyser's rules, every URL reached besides the start is a link of some page that is not on another host and not of a refused kind |
| Crawl.AbsorbKeepsJsonLd | cewlplus.py:157-162 | reading a page before its scripts are removed grows the `json_ld` list by exactly its documents' lines |
| Crawl.AsWrittenDropsJsonLd | cewlplus.py:192-194 | reading a page after its scripts are removed never changes the `json_ld` list |
| Crawl.AbsorbAgreesElsewhere | cewlplus.py:192-208 | reading a page before or after its scripts are removed gives the same words, visited set and metadata, except that the first grows the `json_ld` list by exactly the documents' lines |
| Crawl.JsonLdLostExample | cewlplus.py:158 | a page with one product document: nothing recorded as written, three lines when read first |
| LinkFilter.ShouldFollowLink | cewlplus.py:219-243 | the decision is the domain test followed by the skip-pattern loop |
| LinkFilter.MatchesSkipPattern | cewlplus.py:239-241 | the loop reports a match exactly when some pattern of the list matches |
| LinkFilter.FilterIsRule | cewlplus.py:224-243 | the filter refuses exactly the links with another non-empty host, a listed extension at the end (any letter case, optionally before a final line feed) or a listed prefix |
| LinkFilter.NoHostIsSameDomain | cewlplus.py:225 | a link without a host (a relative link) is never refused for its domain |
| LinkFilter.ExtensionRefused | cewlplus.py:230-232 | ending in a listed extension, in any case, refuses a link whatever precedes it |
| LinkFilter.OtherHostRefused | cewlplus.py:225-226 | an absolute link to another host is refused |
| LinkFilter.SameHostFollowed | cewlplus.py:224-243 | an absolute link to the same host whose path ends in no extension letter is followed |
| LinkFilter.RelativePathFollowed | cewlplus.py:224-243 | a relative path ending in no extension letter is followed |
| LinkFilter.HttpNetloc | cewlplus.py:221-222 | the host of `http://host/path` is `host` |
| LinkFilter.CrossDomainExample | cewlplus.py:225-226 | `http://other.com/x` from `http://example.com/a` is refused |
| LinkFilter.ExtensionExample | cewlplus.py:230-231 | `/file.pdf` and `/img.png` are refused |
| LinkFilter.SameHostExample | cewlplus.py:224-243 | `http://example.com/page2` from the same host is followed |
| LinkFilter.RelativeExample | cewlplus.py:230 | `/page2` and `/a.pdf?x=1` are followed: the extension test is anchored at the end of the whole string |
| LinkFilter.SchemeExamples | cewlplus.py:233-236 | `javascript:`, `mailto:` and `#` links are refused |
| TextNorm.NormaliseTextSpec | cewlplus.py:197-200 | the normalised text has no line break, no two consecutive spaces and no leading or trailing white space, and keeps every non-space character of the input in order |
| TextNorm.NormaliseTextEmpty | cewlplus.py:197-200 | the result is empty exactly when the input is all white space |
| TextNorm.JoinShape | cewlplus.py:200 | joining well-formed chunks with single spaces gives a well-formed text |
| TextNorm.ChunksShape | cewlplus.py:198-199 | every chunk cut from lines without line breaks is non-empty, trimmed and without double spaces |
| Words.ExtractedWordsShape | cewlplus.py:64-88 | every extracted word is its own lower-casing and is either alphanumeric and at least the minimum length, or a password-like word holding a special character |
| Words.PlainRunFound | cewlplus.py:69-70 | every maximal alphanumeric run of the minimum length or more is extracted, lower-cased |
| Words.CamelPartsFound | cewlplus.py:73-77 | each camelCase match splits at its capital, and each part of the minimum length or more is extracted, lower-cased |
| Words.SpecialWordFound | cewlplus.py:80-81 | a token of maximal runs of word characters, punctuation and word characters, with neither word character nor punctuation before it and a non-word character or the end after it, both ASCII, is extracted lower-cased, whatever its length |
| Words.TitleWordFound | cewlplus.py:84-86 | a capitalised word of the minimum length or more that ends at a non-word character, and whose capital is the first since the start or since the last character that is neither a letter nor white space, is extracted lower-cased as a word of its Title Case phrase; the characters on either side are ASCII |
| Words.GetUserName | cewlplus.py:64-88 | `getUserName` with minimum 3 gives exactly `getusername`, `get` and `user` |
| Scan.FindAllShape | cewlplus.py:69-84 | every `findall` match has the shape its pattern describes |
| Scan.BasicFindsRun | cewlplus.py:69 | the basic scanner finds each whole alphanumeric word of the minimum length |
| Scan.FindAllReaches | cewlplus.py:69-84 | `re.findall` returns a non-empty match at a position when no earlier match reaches past that position |
| Scan.SpecialFindsRun | cewlplus.py:80 | the password-like scanner matches a word run, punctuation run and word run, each maximal, from its first character to its last, when the characters on either side are ASCII |
| Scan.TitleFindsWord | cewlplus.py:84-86 | the Title Case scanner has a match that starts at such a capitalised word, and the word is the first piece of that match's `split()`; the characters on either side are ASCII |
| JsonLd.EntriesExactly | cewlplus.py:166-176 | a line is recorded exactly when some dictionary inside the document has that key with a string value longer than 2 |
| JsonLd.RecordedIsFound | cewlplus.py:168-173 | every such member is recorded |
| JsonLd.FoundIsRecorded | cewlplus.py:168-176 | every recorded line comes from such a member |
| JsonLd.StringItemsRecordNothing | cewlplus.py:174-176 | strings and other scalars placed directly in a list record nothing |
| JsonLd.MembersInOrder | cewlplus.py:169 | members are visited in order: splitting a dictionary's members splits its lines at the same place |
| JsonLd.ProductExample | cewlplus.py:166-176 | a product: `@type` and `name` are recorded, the two-character `sku` and the number are not, and the nested brand gives its own `name` line |
| Metadata.PageJsonLd | cewlplus.py:139-164 | a page's metadata grows the `json_ld` list by exactly its documents' lines: no meta or OpenGraph key is `json_ld` |
| Metadata.MetaPairsExactly | cewlplus.py:142-147 | the meta loop appends exactly the tags with a content, under `meta_` and the lower-cased name |
| Metadata.OgPairsExactly | cewlplus.py:150-155 | the OpenGraph loop appends exactly the `og:` tags with a content, under their property |
| Metadata.ScriptsEntriesExactly | cewlplus.py:158-162 | the JSON-LD loop records exactly the lines of the page's documents |
| Metadata.AppendAllBucket | cewlplus.py:147 | each list keeps what it held and gains, at its end, the values appended under its key |
| Metadata.OpenGraphTwice | cewlplus.py:142-155 | an OpenGraph tag without a `name` has its content listed both under `meta_` and under its property |
| Metadata.TaggedIsExtend | cewlplus.py:171 | appending values one by one under a key grows only that key's list, by those values |
| Counter.AddOnce | cewlplus.py:204-205 | the keys gain the page's words; each page word's count grows by one, every other count stays |
| Counter.KeyOrderStep | cewlplus.py:205 | the counter's key order gains a word exactly when it is counted for the first time |
| Counter.KeyOrderCard | cewlplus.py:309 | the key order has as many entries as the counter has keys |
| Wordlists.SortStrings | cewlplus.py:261 | `sorted(password_words)`: strictly increasing in code-point order, with exactly the set's elements |
| Wordlists.MostCommonSpec | cewlplus.py:250 | `most_common()` order is a permutation of the counter's keys, descending by count, and keeps ties in insertion order |
| Wordlists.PasswordSetExactly | cewlplus.py:253-260 | a password candidate is exactly a word of length 6 or more, or that word followed by `123`, `!`, `2024` or `1` |
| Wordlists.PasswordsLong | cewlplus.py:255-260 | every password candidate is at least 6 characters long |
| Wordlists.UsernamesExactly | cewlplus.py:264 | the user names are exactly the words of length 3 to 12, without duplicates when the counter order has none |
| Wordlists.DirectoriesExactly | cewlplus.py:267 | the directories are exactly `/w/` for the words of length 3 or more, without duplicates when the counter order has none |
| Wordlists.EndpointsCount | cewlplus.py:269-273 | there are 5 endpoint entries per word of length 3 or more, and entry `i * n + j` is `["/p/w", "/w/p"]` for pattern `i` and word `j` |
| Wordlists.ReportSpec | cewlplus.py:307-313 | `unique_words` is the length of the counter's key order, that is its number of keys; `top_words` has min(20, words) entries, each word with its own count, in descending count order; the words are the first entries of `most_common()`, in its order, and no word appears twice |

## Left out

- Fetching (`get_page_content`, the Selenium fallback, `setup_selenium`): the site is given as a map from URL to parsed page.
- BeautifulSoup parsing, `get_text`, `find_all`, `urljoin`: the page's text, tags, documents and resolved links are inputs.
- `urlparse` is modelled only for `netloc`. The `ValueError` it raises on an unbalanced IPv6 bracket is not modelled.
- `json.loads` and the silent skip of malformed JSON: documents arrive parsed, and malformed ones are simply absent. JSON numbers are kept as reals, and no number is ever recorded.
- The thread pool of `analyze_site`: its calls are run one after another. The visiting order of the set `list(self.visited_urls)` is left open.
- `extract_entities` (emails, phone numbers, years, versions), with the `years`/`versions` lists it adds to the metadata and the `emails_found`/`phones_found` report fields.
- `save_results` file writing, `main` and its arguments, logging, `time.sleep` delays and elapsed-time measurement.
- The `threads` and `delay` constructor parameters, which only feed the thread pool and the sleeps.
- Lower-casing is ASCII only. Python's `str.lower` of non-ASCII letters is not modelled.
- Analyzer.AdvancedCeWL.AnalyzePage: reads a page's JSON-LD before its scripts are removed, the corrected order of "## Findings". As written (cewlplus.py:193-194 before 208), the `json_ld` list never grows during a crawl. `Crawl.AbsorbAgreesElsewhere` shows that this list is the only difference.
- Analyzer.AdvancedCeWL.ReadPage: passes the page's scripts to `ExtractMetadata`, the corrected order. As written, the scripts are gone by then and the `json_ld` list stays as it was.
- Analyzer.AdvancedCeWL.AnalyzeSite: the crawl it equals is the corrected one above. As written, its `json_ld` list never grows.
- Words.ExtractedWordsShape: `\w` and `\b` are read over ASCII letters, digits and `_`, while Python's `str` patterns use Unicode word characters. So `café!x` is a password-like token for Python, and it fits neither class as defined here.
- Words.PlainRunFound: with the ASCII `\b`, the model finds `sum` as a whole word in `résumé`, where Python finds nothing. In `Café` the model's strategies take `caf`, and Python's take nothing.
- Scan.FindAllShape: the shapes use the ASCII `\w`, so Python matches that hold non-ASCII word characters fall outside them.
- Scan.BasicFindsRun: the same ASCII `\b` as Words.PlainRunFound, so runs next to letters such as `é` or `ü` count as whole words.
- Words.SpecialWordFound: requires ASCII characters on either side of the token. With a non-ASCII neighbour, the ASCII `\w` and Python's differ: in `ab!cé` the model extracts `ab!c`, while Python matches `ab!cé`.
- Words.TitleWordFound: requires ASCII characters on either side of the word. In `Café` the model extracts `caf`, while Python finds no `\b` between `f` and `é` and has no match.
- Scan.SpecialFindsRun: the same ASCII neighbours as Words.SpecialWordFound. With `é` after the token, the model's scanner matches `ab!c` inside `ab!cé`, where Python matches `ab!cé`.
- Scan.TitleFindsWord: the same ASCII neighbours as Words.TitleWordFound. The model's scanner matches `Caf` in `Café`, where Python has no match.
- `min_word_length` is a natural number. A negative value would turn the regular expression's `{n,}` into literal text.

## Findings

| source | as written | input that shows it | evidently intended | confidence | as-written member | corrected member |
|---|---|---|---|---|---|---|
| cewlplus.py:193-194, 208, 158 | `analyze_page` decomposes every `<script>` element before it calls `extract_metadata`, so `find_all('script', type='application/ld+json')` finds nothing and the `json_ld` list is never filled during a crawl | a page whose only JSON-LD script describes a product (`@type` Thing, `name` Widget, brand `name` Acme) | JSON-LD read before the scripts are removed, giving `@type: Thing`, `name: Widget`, `name: Acme` | high; not executed | Crawl.AsWrittenDropsJsonLd | Crawl.AbsorbKeepsJsonLd |
