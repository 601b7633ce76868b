/** `AdvancedCeWL.should_follow_link`: whether a discovered link is crawled.
    The host part of a URL is computed the way `urllib.parse.urlsplit` finds
    its `netloc`; the skip patterns are searched with `re.IGNORECASE`. */
module LinkFilter {
  import opened Chars

  // ---------------------------------------------------------------------
  // The `netloc` of a URL
  // ---------------------------------------------------------------------

  /** Leading C0 control characters and spaces, which `urlsplit` strips. */
  function StripLeadingControl(s: string): (r: string)
    ensures |r| <= |s| && r == s[|s| - |r|..]
    ensures r == [] || r[0] > ' '
  {
    if s != [] && s[0] <= ' ' then StripLeadingControl(s[1..]) else s
  }

  /** `urlsplit` deletes every tab, carriage return and line feed. */
  function RemoveTabsAndNewlines(s: string): (r: string)
    ensures forall i :: 0 <= i < |r| ==> r[i] !in "\t\r\n"
  {
    if s == [] then []
    else if s[0] in "\t\r\n" then RemoveTabsAndNewlines(s[1..])
    else [s[0]] + RemoveTabsAndNewlines(s[1..])
  }

  /** The first index at or after `from` that holds one of `cs`, or `|s|`. */
  function IndexOfAny(s: string, from: nat, cs: string): (r: nat)
    requires from <= |s|
    ensures from <= r <= |s|
    ensures r < |s| ==> s[r] in cs
    ensures forall k :: from <= k < r ==> s[k] !in cs
    decreases |s| - from
  {
    if from == |s| || s[from] in cs then from else IndexOfAny(s, from + 1, cs)
  }

  predicate IsSchemeChar(c: char) {
    IsAlnum(c) || c == '+' || c == '-' || c == '.'
  }

  /** What is left once a scheme and its colon are split off: a scheme is
      the text before the first colon when it starts with an ASCII letter and
      consists of scheme characters. */
  function AfterScheme(u: string): string {
    var i := IndexOfAny(u, 0, ":");
    if i < |u| && i > 0 && IsAsciiLetter(u[0]) &&
       (forall k :: 0 <= k < i ==> IsSchemeChar(u[k]))
    then u[i + 1..]
    else u
  }

  /** The URL once `urlsplit` has cleaned it. */
  function CleanUrl(u: string): string {
    RemoveTabsAndNewlines(StripLeadingControl(u))
  }

  /** A leading `//` introduces the network location, which runs to the
      next `/`, `?` or `#`. */
  function NetlocOfRest(rest: string): string {
    if |rest| >= 2 && rest[0] == '/' && rest[1] == '/'
    then rest[2..IndexOfAny(rest, 2, "/?#")]
    else ""
  }

  /** `urlparse(u).netloc`. */
  function Netloc(u: string): string {
    NetlocOfRest(AfterScheme(CleanUrl(u)))
  }

  // ---------------------------------------------------------------------
  // The skip patterns, as the source lists them
  // ---------------------------------------------------------------------

  /** A skip pattern: `\.(e1|e2|...)$` or `^prefix`. */
  datatype SkipPattern =
    | ExtensionAtEnd(extensions: seq<string>)
    | PrefixAtStart(prefix: string)

  const SkipPatterns: seq<SkipPattern> := [
    ExtensionAtEnd(["pdf", "doc", "docx", "xls", "xlsx", "ppt", "pptx", "zip", "rar", "tar", "gz"]),
    ExtensionAtEnd(["jpg", "jpeg", "png", "gif", "bmp", "svg", "webp"]),
    ExtensionAtEnd(["css", "js"]),
    PrefixAtStart("javascript:"),
    PrefixAtStart("mailto:"),
    PrefixAtStart("tel:"),
    PrefixAtStart("#")
  ]

  /** A suffix followed by `$`: `$` matches at the very end and also just
      before a final line feed. */
  predicate EndsAtDollar(s: string, suffix: string) {
    EndsWithCI(s, suffix) ||
    (|s| > 0 && s[|s| - 1] == '\n' && EndsWithCI(s[..|s| - 1], suffix))
  }

  /** `re.search(pattern, link, re.IGNORECASE)` finds a match. */
  predicate PatternMatches(p: SkipPattern, link: string) {
    match p
    case ExtensionAtEnd(exts) => exists e <- exts :: EndsAtDollar(link, "." + e)
    case PrefixAtStart(pre) => StartsWithCI(link, pre)
  }

  // ---------------------------------------------------------------------
  // The rule the filter implements, stated on its own
  // ---------------------------------------------------------------------

  const SkippedExtensions: seq<string> := [
    "pdf", "doc", "docx", "xls", "xlsx", "ppt", "pptx", "zip", "rar", "tar", "gz",
    "jpg", "jpeg", "png", "gif", "bmp", "svg", "webp", "css", "js"
  ]

  const SkippedPrefixes: seq<string> := ["javascript:", "mailto:", "tel:", "#"]

  /** The link names a host, and it is not the host of the referring page. */
  predicate IsCrossDomain(link: string, baseUrl: string) {
    Netloc(link) != "" && Netloc(link) != Netloc(baseUrl)
  }

  predicate HasSkippedExtension(link: string) {
    exists e <- SkippedExtensions :: EndsAtDollar(link, "." + e)
  }

  predicate HasSkippedPrefix(link: string) {
    exists p <- SkippedPrefixes :: StartsWithCI(link, p)
  }

  predicate Follows(link: string, baseUrl: string) {
    !IsCrossDomain(link, baseUrl) && !HasSkippedExtension(link) && !HasSkippedPrefix(link)
  }

  /** Some pattern of the list finds a match in the link. */
  predicate AnySkipPattern(link: string) {
    exists j :: 0 <= j < |SkipPatterns| && PatternMatches(SkipPatterns[j], link)
  }

  lemma ExtensionPatternFound(link: string)
    requires HasSkippedExtension(link)
    ensures AnySkipPattern(link)
  {
    var P := SkipPatterns;
    var e :| e in SkippedExtensions && EndsAtDollar(link, "." + e);
    if e in P[0].extensions {
      assert PatternMatches(P[0], link);
    } else if e in P[1].extensions {
      assert PatternMatches(P[1], link);
    } else {
      assert PatternMatches(P[2], link);
    }
  }

  lemma PrefixPatternFound(link: string)
    requires HasSkippedPrefix(link)
    ensures AnySkipPattern(link)
  {
    var P := SkipPatterns;
    var p :| p in SkippedPrefixes && StartsWithCI(link, p);
    if p == "javascript:" {
      assert PatternMatches(P[3], link);
    } else if p == "mailto:" {
      assert PatternMatches(P[4], link);
    } else if p == "tel:" {
      assert PatternMatches(P[5], link);
    } else {
      assert PatternMatches(P[6], link);
    }
  }

  lemma PatternFoundMeansRule(link: string)
    requires AnySkipPattern(link)
    ensures HasSkippedExtension(link) || HasSkippedPrefix(link)
  {
    var P := SkipPatterns;
    var j :| 0 <= j < |P| && PatternMatches(P[j], link);
    if j < 3 {
      var e :| e in P[j].extensions && EndsAtDollar(link, "." + e);
      assert e in SkippedExtensions;
    } else {
      assert P[j].prefix in SkippedPrefixes;
    }
  }

  /** The seven patterns, taken together, say what the two lists say. */
  lemma SkipPatternsMeaning(link: string)
    ensures AnySkipPattern(link) <==> HasSkippedExtension(link) || HasSkippedPrefix(link)
  {
    if HasSkippedExtension(link) {
      ExtensionPatternFound(link);
    }
    if HasSkippedPrefix(link) {
      PrefixPatternFound(link);
    }
    if AnySkipPattern(link) {
      PatternFoundMeansRule(link);
    }
  }

  /** The decision as the filter takes it: the domain test, then the list of
      patterns. */
  predicate PassesFilter(link: string, baseUrl: string) {
    !IsCrossDomain(link, baseUrl) && !AnySkipPattern(link)
  }

  /** The loop of `should_follow_link` over its skip patterns: whether any
      of them finds a match, trying them in order. */
  method MatchesSkipPattern(link: string) returns (found: bool)
    ensures found == AnySkipPattern(link)
  {
    for i := 0 to |SkipPatterns|
      invariant forall j :: 0 <= j < i ==> !PatternMatches(SkipPatterns[j], link)
    {
      if PatternMatches(SkipPatterns[i], link) {
        return true;
      }
    }
    return false;
  }

  /** `should_follow_link(link, base_url)`: the domain test, then the skip
      patterns. */
  method ShouldFollowLink(link: string, baseUrl: string) returns (follow: bool)
    ensures follow == PassesFilter(link, baseUrl)
  {
    var linkNetloc := Netloc(link);
    if linkNetloc != "" && linkNetloc != Netloc(baseUrl) {
      return false;
    }
    var skipped := MatchesSkipPattern(link);
    return !skipped;
  }

  /** The list of patterns refuses exactly the links the rule refuses. */
  lemma FilterIsRule(link: string, baseUrl: string)
    ensures PassesFilter(link, baseUrl) == Follows(link, baseUrl)
  {
    SkipPatternsMeaning(link);
  }

  // ---------------------------------------------------------------------
  // Consequences
  // ---------------------------------------------------------------------

  /** A link that names no host (a relative link) is never refused for its
      domain. */
  lemma NoHostIsSameDomain(link: string, baseUrl: string)
    requires Netloc(link) == ""
    ensures Follows(link, baseUrl) <==> !HasSkippedExtension(link) && !HasSkippedPrefix(link)
  {
  }

  /** Ending in a listed extension, in any letter case, refuses a link
      whatever comes before it. */
  lemma {:induction false} ExtensionRefused(stem: string, ext: string, baseUrl: string)
    requires ext in SkippedExtensions
    ensures !Follows(stem + "." + ext, baseUrl)
    ensures !Follows(stem + "." + ext + "\n", baseUrl)
  {
    var s := stem + "." + ext;
    assert EndsWithCI(s, "." + ext) by {
      forall k | 0 <= k < |"." + ext|
        ensures CharMatchesCI(s[|s| - |"." + ext| + k], ("." + ext)[k])
      {
        assert s[|s| - |"." + ext| + k] == ("." + ext)[k];
      }
    }
    assert EndsAtDollar(s, "." + ext);
    var t := s + "\n";
    assert t[..|t| - 1] == s;
    assert EndsAtDollar(t, "." + ext);
  }

  lemma {:induction false} RemoveTabsAndNewlinesKeeps(s: string)
    requires forall i :: 0 <= i < |s| ==> s[i] !in "\t\r\n"
    ensures RemoveTabsAndNewlines(s) == s
  {
    if s != [] {
      RemoveTabsAndNewlinesKeeps(s[1..]);
    }
  }

  /** A link that starts with one `/` names no host. */
  lemma PathHasNoNetloc(u: string)
    requires |u| >= 2 && u[0] == '/' && u[1] != '/'
    requires forall i :: 0 <= i < |u| ==> u[i] !in "\t\r\n"
    ensures Netloc(u) == ""
  {
    RemoveTabsAndNewlinesKeeps(u);
  }

  lemma HttpSchemeSplit(rest: string)
    ensures AfterScheme("http:" + rest) == rest
  {
    var u := "http:" + rest;
    assert u[0] == 'h' && u[1] == 't' && u[2] == 't' && u[3] == 'p' && u[4] == ':';
    assert IndexOfAny(u, 0, ":") == 4;
    assert u[5..] == rest;
  }

  lemma HostRunsToSlash(host: string, path: string)
    requires forall i :: 0 <= i < |host| ==> host[i] !in "/?#"
    requires |path| > 0 && path[0] == '/'
    ensures NetlocOfRest("//" + host + path) == host
  {
    var rest := "//" + host + path;
    var k := IndexOfAny(rest, 2, "/?#");
    assert forall j :: 2 <= j < 2 + |host| ==> rest[j] == host[j - 2];
    assert rest[2 + |host|] == path[0];
    assert k == 2 + |host|;
    assert rest[2..k] == host;
  }

  /** The host of `http://host/...` is `host`. */
  lemma HttpNetloc(host: string, path: string)
    requires forall i :: 0 <= i < |host| ==> host[i] !in "\t\r\n/?#:"
    requires forall i :: 0 <= i < |path| ==> path[i] !in "\t\r\n"
    requires |path| > 0 && path[0] == '/'
    ensures Netloc("http://" + host + path) == host
  {
    var rest := "//" + host + path;
    var u := "http:" + rest;
    assert u == "http://" + host + path;
    forall i | 0 <= i < |u| ensures u[i] !in "\t\r\n" {
      if i >= 7 + |host| {
        assert u[i] == path[i - 7 - |host|];
      } else if i >= 7 {
        assert u[i] == host[i - 7];
      }
    }
    RemoveTabsAndNewlinesKeeps(u);
    assert CleanUrl(u) == u;
    HttpSchemeSplit(rest);
    HostRunsToSlash(host, path);
  }

  /** Every listed extension is made of letters, so a link whose last
      character is an ASCII non-letter other than a line feed ends in none of
      them: a query string such as `?x=1` defeats the extension test. */
  lemma NonLetterEndNoExtension(s: string)
    requires |s| > 0 && s[|s| - 1] != '\n'
    requires s[|s| - 1] < '\U{80}' && !IsAsciiLetter(s[|s| - 1])
    ensures !HasSkippedExtension(s)
  {
    ExtensionsEndInLetter();
    forall e | e in SkippedExtensions
      ensures !EndsAtDollar(s, "." + e)
    {
      NoLetterSuffix(s, e);
    }
  }

  predicate EndsInLower(e: string) { |e| > 0 && IsAsciiLower(e[|e| - 1]) }

  lemma ExtensionsEndInLetter()
    ensures forall e <- SkippedExtensions :: EndsInLower(e)
  {
    assert EndsInLower("pdf") && EndsInLower("doc") && EndsInLower("docx") && EndsInLower("xls");
    assert EndsInLower("xlsx") && EndsInLower("ppt") && EndsInLower("pptx") && EndsInLower("zip");
    assert EndsInLower("rar") && EndsInLower("tar") && EndsInLower("gz") && EndsInLower("jpg");
    assert EndsInLower("jpeg") && EndsInLower("png") && EndsInLower("gif") && EndsInLower("bmp");
    assert EndsInLower("svg") && EndsInLower("webp") && EndsInLower("css") && EndsInLower("js");
  }

  lemma NoLetterSuffix(s: string, e: string)
    requires |s| > 0 && s[|s| - 1] != '\n'
    requires s[|s| - 1] < '\U{80}' && !IsAsciiLetter(s[|s| - 1])
    requires EndsInLower(e)
    ensures !EndsAtDollar(s, "." + e)
  {
    var p := "." + e;
    assert p[|p| - 1] == e[|e| - 1];
    assert !CharMatchesCI(s[|s| - |p| + (|p| - 1)], p[|p| - 1]);
  }

  /** Every listed prefix starts with `j`, `m`, `t` or `#`. */
  lemma FirstCharNoPrefix(s: string)
    requires |s| > 0 && s[0] !in "jJmMtT#"
    ensures !HasSkippedPrefix(s)
  {
    forall p | p in SkippedPrefixes
      ensures !StartsWithCI(s, p)
    {
      assert !CharMatchesCI(s[0 + 0], p[0]);
    }
  }

  /** A link to another host is refused. */
  lemma OtherHostRefused(host: string, path: string, baseHost: string, basePath: string)
    requires forall i :: 0 <= i < |host| ==> host[i] !in "\t\r\n/?#:"
    requires forall i :: 0 <= i < |baseHost| ==> baseHost[i] !in "\t\r\n/?#:"
    requires forall i :: 0 <= i < |path| ==> path[i] !in "\t\r\n"
    requires forall i :: 0 <= i < |basePath| ==> basePath[i] !in "\t\r\n"
    requires |path| > 0 && path[0] == '/' && |basePath| > 0 && basePath[0] == '/'
    requires host != "" && host != baseHost
    ensures !Follows("http://" + host + path, "http://" + baseHost + basePath)
  {
    HttpNetloc(host, path);
    HttpNetloc(baseHost, basePath);
  }

  lemma SameHostNotCrossDomain(host: string, path: string, basePath: string)
    requires forall i :: 0 <= i < |host| ==> host[i] !in "\t\r\n/?#:"
    requires forall i :: 0 <= i < |path| ==> path[i] !in "\t\r\n"
    requires forall i :: 0 <= i < |basePath| ==> basePath[i] !in "\t\r\n"
    requires |path| > 0 && path[0] == '/' && |basePath| > 0 && basePath[0] == '/'
    ensures !IsCrossDomain("http://" + host + path, "http://" + host + basePath)
  {
    HttpNetloc(host, path);
    HttpNetloc(host, basePath);
  }

  lemma HttpNotSkipped(host: string, path: string)
    requires |path| > 0 && path[|path| - 1] != '\n'
    requires path[|path| - 1] < '\U{80}' && !IsAsciiLetter(path[|path| - 1])
    ensures !HasSkippedExtension("http://" + host + path)
    ensures !HasSkippedPrefix("http://" + host + path)
  {
    var u := "http://" + host + path;
    assert u[|u| - 1] == path[|path| - 1];
    NonLetterEndNoExtension(u);
    assert u[0] == 'h';
    FirstCharNoPrefix(u);
  }

  /** A page of the same host is followed unless it ends in a letter. */
  lemma SameHostFollowed(host: string, path: string, basePath: string)
    requires forall i :: 0 <= i < |host| ==> host[i] !in "\t\r\n/?#:"
    requires forall i :: 0 <= i < |path| ==> path[i] !in "\t\r\n"
    requires forall i :: 0 <= i < |basePath| ==> basePath[i] !in "\t\r\n"
    requires |path| > 0 && path[0] == '/' && |basePath| > 0 && basePath[0] == '/'
    requires path[|path| - 1] < '\U{80}' && !IsAsciiLetter(path[|path| - 1])
    ensures Follows("http://" + host + path, "http://" + host + basePath)
  {
    SameHostNotCrossDomain(host, path, basePath);
    assert path[|path| - 1] !in "\t\r\n";
    HttpNotSkipped(host, path);
  }

  /** A site-relative path is followed unless it ends in a letter. */
  lemma RelativePathFollowed(path: string, baseUrl: string)
    requires |path| >= 2 && path[0] == '/' && path[1] != '/'
    requires forall i :: 0 <= i < |path| ==> path[i] !in "\t\r\n"
    requires path[|path| - 1] < '\U{80}' && !IsAsciiLetter(path[|path| - 1])
    ensures Follows(path, baseUrl)
  {
    PathHasNoNetloc(path);
    assert path[|path| - 1] !in "\t\r\n";
    NonLetterEndNoExtension(path);
    FirstCharNoPrefix(path);
  }

  // Examples for a page at `http://example.com/a`. Each
  // takes its strings as parameters fixed by its precondition, and splits
  // them into the parts the general lemmas above speak of.

  lemma HostChars(host: string)
    requires host == "other.com" || host == "example.com"
    ensures forall i :: 0 <= i < |host| ==> host[i] !in "\t\r\n/?#:"
  {
    forall i | 0 <= i < |host|
      ensures host[i] !in "\t\r\n/?#:"
    {
      assert IsAsciiLower(host[i]) || host[i] == '.';
    }
  }

  lemma CrossDomainExample(link: string, base: string)
    requires link == "http://other.com/x" && base == "http://example.com/a"
    ensures !Follows(link, base)
  {
    assert link == "http://" + "other.com" + "/x";
    assert base == "http://" + "example.com" + "/a";
    HostChars("other.com");
    HostChars("example.com");
    OtherHostRefused("other.com", "/x", "example.com", "/a");
  }

  lemma ExtensionExample(link: string, base: string)
    requires link == "/file.pdf" || link == "/img.png"
    ensures !Follows(link, base)
  {
    var stem := link[..|link| - 4];
    if link == "/file.pdf" {
      assert link == stem + "." + "pdf";
      ExtensionRefused(stem, "pdf", base);
    } else {
      assert link == stem + "." + "png";
      ExtensionRefused(stem, "png", base);
    }
  }

  lemma SameHostExample(link: string, base: string)
    requires link == "http://example.com/page2" && base == "http://example.com/a"
    ensures Follows(link, base)
  {
    assert link == "http://" + "example.com" + "/page2";
    assert base == "http://" + "example.com" + "/a";
    HostChars("example.com");
    SameHostFollowed("example.com", "/page2", "/a");
  }

  lemma RelativeExample(link: string, base: string)
    requires link == "/page2" || link == "/a.pdf?x=1"
    ensures Follows(link, base)
  {
    RelativePathFollowed(link, base);
  }

  lemma SchemeExamples()
    ensures !Follows("javascript:void(0)", "http://example.com/a")
    ensures !Follows("mailto:a@b.com", "http://example.com/a")
    ensures !Follows("#frag", "http://example.com/a")
  {
    assert StartsWithCI("javascript:void(0)", "javascript:");
    assert StartsWithCI("mailto:a@b.com", "mailto:");
    assert StartsWithCI("#frag", "#");
  }
}
