/** The word lists derived from the counter, and the summary report. Each
    list is specified here by a function of the counter's key order and
    counts; the analyser computes them with the same loops as the source. */
module Wordlists {
  import opened Counter

  datatype Wordlists = Wordlists(
    basic: seq<string>,
    passwords: seq<string>,
    usernames: seq<string>,
    directories: seq<string>,
    endpoints: seq<seq<string>>)

  // ---------------------------------------------------------------------
  // The order of Python strings
  // ---------------------------------------------------------------------

  /** `a < b` on strings: the first differing character decides, and a
      proper prefix comes first. */
  predicate LexLess(a: string, b: string)
    decreases |a|
  {
    |b| > 0 && (|a| == 0 || a[0] < b[0] || (a[0] == b[0] && LexLess(a[1..], b[1..])))
  }

  lemma {:induction false} LexIrreflexive(a: string)
    ensures !LexLess(a, a)
    decreases |a|
  {
    if |a| > 0 {
      LexIrreflexive(a[1..]);
    }
  }

  lemma {:induction false} LexTrans(a: string, b: string, c: string)
    requires LexLess(a, b) && LexLess(b, c)
    ensures LexLess(a, c)
    decreases |a|
  {
    if |a| > 0 && a[0] == b[0] && b[0] == c[0] {
      LexTrans(a[1..], b[1..], c[1..]);
    }
  }

  lemma {:induction false} LexTotal(a: string, b: string)
    requires a != b
    ensures LexLess(a, b) || LexLess(b, a)
    decreases |a|
  {
    if |a| > 0 && |b| > 0 && a[0] == b[0] {
      assert a == [a[0]] + a[1..] && b == [b[0]] + b[1..];
      LexTotal(a[1..], b[1..]);
    }
  }

  /** Strictly increasing, hence sorted and without repetitions. */
  predicate Increasing(r: seq<string>) {
    forall i, j :: 0 <= i < j < |r| ==> LexLess(r[i], r[j])
  }

  /** `x` put into its place in an increasing list. */
  function InsertSorted(r: seq<string>, x: string): (q: seq<string>)
    ensures |q| == |r| + 1
    ensures forall y :: y in q <==> y in r || y == x
    decreases |r|
  {
    if r == [] then [x]
    else if LexLess(x, r[0]) then [x] + r
    else [r[0]] + InsertSorted(r[1..], x)
  }

  lemma {:induction false} InsertSortedIncreasing(r: seq<string>, x: string)
    requires Increasing(r) && x !in r
    ensures Increasing(InsertSorted(r, x))
    decreases |r|
  {
    if r != [] {
      var q := InsertSorted(r, x);
      if LexLess(x, r[0]) {
        forall j | 1 <= j < |q|
          ensures LexLess(q[0], q[j])
        {
          if j > 1 {
            LexTrans(x, r[0], r[j - 1]);
          }
        }
      } else {
        LexTotal(x, r[0]);
        InsertSortedIncreasing(r[1..], x);
        var t := InsertSorted(r[1..], x);
        forall j | 0 <= j < |t|
          ensures LexLess(r[0], t[j])
        {
          assert t[j] in r[1..] || t[j] == x;
          if t[j] != x {
            var k :| 1 <= k < |r| && r[k] == t[j];
          }
        }
      }
    }
  }

  /** `sorted(s)` for a set of strings: the increasing list of its
      elements. */
  method SortStrings(s: set<string>) returns (r: seq<string>)
    ensures Increasing(r) && |r| == |s|
    ensures forall x :: x in r <==> x in s
  {
    r := [];
    var rest := s;
    while rest != {}
      invariant rest <= s && |r| + |rest| == |s|
      invariant Increasing(r)
      invariant forall x :: x in r <==> x in s && x !in rest
      decreases |rest|
    {
      var x :| x in rest;
      InsertSortedIncreasing(r, x);
      r := InsertSorted(r, x);
      rest := rest - {x};
    }
  }

  // ---------------------------------------------------------------------
  // basic: the words by decreasing count
  // ---------------------------------------------------------------------

  /** `w` placed after every word counted at least as often: where a stable
      sort by decreasing count puts a word that comes last. */
  function InsertByCount(words: map<string, nat>, s: seq<string>, w: string): (r: seq<string>)
    ensures multiset(r) == multiset(s) + multiset{w}
    decreases |s|
  {
    if s == [] then [w]
    else if Count(words, s[0]) >= Count(words, w) then
      assert s == [s[0]] + s[1..];
      [s[0]] + InsertByCount(words, s[1..], w)
    else [w] + s
  }

  /** `most_common()`: the counter's keys, most counted first, and in
      counter order among equal counts. */
  function MostCommon(order: seq<string>, words: map<string, nat>): (r: seq<string>)
    ensures multiset(r) == multiset(order)
    decreases |order|
  {
    if order == [] then []
    else
      var n := |order| - 1;
      assert order == order[..n] + [order[n]];
      InsertByCount(words, MostCommon(order[..n], words), order[n])
  }

  predicate Descending(s: seq<string>, words: map<string, nat>) {
    forall i, j :: 0 <= i < j < |s| ==> Count(words, s[i]) >= Count(words, s[j])
  }

  /** The words of `s` counted exactly `c` times, in their order in `s`. */
  function WithCount(s: seq<string>, words: map<string, nat>, c: nat): seq<string>
    decreases |s|
  {
    if s == [] then []
    else (if Count(words, s[0]) == c then [s[0]] else []) + WithCount(s[1..], words, c)
  }

  lemma {:induction false} InsertByCountDescending(words: map<string, nat>, s: seq<string>, w: string)
    requires Descending(s, words)
    ensures Descending(InsertByCount(words, s, w), words)
    decreases |s|
  {
    if s != [] && Count(words, s[0]) >= Count(words, w) {
      InsertByCountDescending(words, s[1..], w);
      HeadStaysFirst(words, s, w);
    }
  }

  lemma HeadStaysFirst(words: map<string, nat>, s: seq<string>, w: string)
    requires Descending(s, words) && s != [] && Count(words, s[0]) >= Count(words, w)
    requires Descending(InsertByCount(words, s[1..], w), words)
    ensures Descending(InsertByCount(words, s, w), words)
  {
    assert InsertByCount(words, s, w) == [s[0]] + InsertByCount(words, s[1..], w);
    ConsDescending(words, s[0], InsertByCount(words, s[1..], w), s[1..], w);
  }

  /** A word counted at least as often as everything in a descending list
      can go in front of it. */
  lemma ConsDescending(words: map<string, nat>, x: string, t: seq<string>, u: seq<string>, w: string)
    requires Descending(t, words) && multiset(t) == multiset(u) + multiset{w}
    requires forall k :: 0 <= k < |u| ==> Count(words, x) >= Count(words, u[k])
    requires Count(words, x) >= Count(words, w)
    ensures Descending([x] + t, words)
  {
    forall j | 0 <= j < |t|
      ensures Count(words, x) >= Count(words, t[j])
    {
      assert t[j] in multiset(t);
      if t[j] != w {
        assert t[j] in multiset(u);
        var k :| 0 <= k < |u| && u[k] == t[j];
      }
    }
  }

  lemma {:induction false} MostCommonDescending(order: seq<string>, words: map<string, nat>)
    ensures Descending(MostCommon(order, words), words)
    decreases |order|
  {
    if order != [] {
      var n := |order| - 1;
      MostCommonDescending(order[..n], words);
      InsertByCountDescending(words, MostCommon(order[..n], words), order[n]);
    }
  }

  lemma {:induction false} WithCountConcat(a: seq<string>, b: seq<string>, words: map<string, nat>, c: nat)
    ensures WithCount(a + b, words, c) == WithCount(a, words, c) + WithCount(b, words, c)
    decreases |a|
  {
    if a == [] {
      assert a + b == b;
    } else {
      assert (a + b)[1..] == a[1..] + b;
      WithCountConcat(a[1..], b, words, c);
    }
  }

  /** In a list sorted by decreasing count whose head is counted less than
      `c`, nothing is counted `c` times. */
  lemma {:induction false} WithCountNone(s: seq<string>, words: map<string, nat>, c: nat)
    requires Descending(s, words) && s != [] && Count(words, s[0]) < c
    ensures WithCount(s, words, c) == []
    decreases |s|
  {
    if |s| > 1 {
      WithCountNone(s[1..], words, c);
    }
  }

  lemma {:induction false} InsertByCountStable(words: map<string, nat>, s: seq<string>, w: string, c: nat)
    requires Descending(s, words)
    ensures WithCount(InsertByCount(words, s, w), words, c) ==
            WithCount(s, words, c) + (if Count(words, w) == c then [w] else [])
    decreases |s|
  {
    if s == [] {
      assert WithCount([w], words, c) ==
             (if Count(words, w) == c then [w] else []) + WithCount([], words, c);
    } else if Count(words, s[0]) >= Count(words, w) {
      InsertByCountStable(words, s[1..], w, c);
      StableAfterHead(words, s, w, c);
    } else {
      StableAtHead(words, s, w, c);
    }
  }

  /** `w` goes further down: the head stays in front. */
  lemma StableAfterHead(words: map<string, nat>, s: seq<string>, w: string, c: nat)
    requires s != [] && Count(words, s[0]) >= Count(words, w)
    requires WithCount(InsertByCount(words, s[1..], w), words, c) ==
             WithCount(s[1..], words, c) + (if Count(words, w) == c then [w] else [])
    ensures WithCount(InsertByCount(words, s, w), words, c) ==
            WithCount(s, words, c) + (if Count(words, w) == c then [w] else [])
  {
    assert InsertByCount(words, s, w) == [s[0]] + InsertByCount(words, s[1..], w);
    assert [s[0]] + s[1..] == s;
    ConsKeepsTail(s[0], InsertByCount(words, s[1..], w), s[1..], words, c,
                  if Count(words, w) == c then [w] else []);
  }

  /** Putting the same word in front of two lists keeps a common tail. */
  lemma ConsKeepsTail(x: string, t: seq<string>, u: seq<string>, words: map<string, nat>, c: nat,
                      last: seq<string>)
    requires WithCount(t, words, c) == WithCount(u, words, c) + last
    ensures WithCount([x] + t, words, c) == WithCount([x] + u, words, c) + last
  {
    var head: seq<string> := if Count(words, x) == c then [x] else [];
    assert ([x] + t)[1..] == t;
    assert ([x] + u)[1..] == u;
    assert head + (WithCount(u, words, c) + last) == (head + WithCount(u, words, c)) + last;
  }

  /** `w` goes in front of a list all counted less than it. */
  lemma StableAtHead(words: map<string, nat>, s: seq<string>, w: string, c: nat)
    requires Descending(s, words) && s != [] && Count(words, s[0]) < Count(words, w)
    ensures WithCount(InsertByCount(words, s, w), words, c) ==
            WithCount(s, words, c) + (if Count(words, w) == c then [w] else [])
  {
    assert InsertByCount(words, s, w) == [w] + s;
    if Count(words, w) == c {
      WithCountNone(s, words, c);
    }
    assert ([w] + s)[1..] == s;
  }

  /** Among words counted equally often, `most_common()` keeps the counter's
      order: the sort is stable. */
  lemma {:induction false} MostCommonStable(order: seq<string>, words: map<string, nat>, c: nat)
    ensures WithCount(MostCommon(order, words), words, c) == WithCount(order, words, c)
    decreases |order|
  {
    if order != [] {
      var n := |order| - 1;
      var init, w := order[..n], order[n];
      var before := MostCommon(init, words);
      MostCommonStable(init, words, c);
      MostCommonDescending(init, words);
      InsertByCountStable(words, before, w, c);
      WithCountSnoc(order, words, c);
    }
  }

  lemma WithCountSnoc(s: seq<string>, words: map<string, nat>, c: nat)
    requires s != []
    ensures WithCount(s, words, c) ==
            WithCount(s[..|s| - 1], words, c) + (if Count(words, s[|s| - 1]) == c then [s[|s| - 1]] else [])
  {
    var n := |s| - 1;
    assert s == s[..n] + [s[n]];
    WithCountConcat(s[..n], [s[n]], words, c);
    assert WithCount([s[n]], words, c) ==
           (if Count(words, s[n]) == c then [s[n]] else []) + WithCount([], words, c);
  }

  /** `most_common()` is a reordering of the counter's keys, most counted
      first, stable among equal counts. */
  lemma MostCommonSpec(order: seq<string>, words: map<string, nat>, c: nat)
    ensures multiset(MostCommon(order, words)) == multiset(order)
    ensures Descending(MostCommon(order, words), words)
    ensures WithCount(MostCommon(order, words), words, c) == WithCount(order, words, c)
  {
    MostCommonDescending(order, words);
    MostCommonStable(order, words, c);
  }

  // ---------------------------------------------------------------------
  // passwords
  // ---------------------------------------------------------------------

  /** The password candidates derived from one word. */
  function Mutations(w: string): seq<string> {
    [w, w + "123", w + "!", w + "2024", w + "1"]
  }

  lemma MutationSet(w: string)
    ensures (set m | m in Mutations(w)) == {w, w + "123", w + "!", w + "2024", w + "1"}
  {
  }

  /** The password set built from the given words: the candidates of every
      word of six characters or more. */
  function PasswordSet(order: seq<string>): set<string>
    decreases |order|
  {
    if order == [] then {}
    else
      var n := |order| - 1;
      PasswordSet(order[..n]) + (if |order[n]| >= 6 then set m | m in Mutations(order[n]) else {})
  }

  /** A candidate is in the set exactly when it is one of the mutations of a
      word of six characters or more. */
  lemma {:induction false} PasswordSetExactly(order: seq<string>, x: string)
    ensures x in PasswordSet(order) <==> exists w :: w in order && |w| >= 6 && x in Mutations(w)
    decreases |order|
  {
    if order != [] {
      var n := |order| - 1;
      PasswordSetExactly(order[..n], x);
      assert order == order[..n] + [order[n]];
    }
  }

  /** Every candidate is at least six characters long. */
  lemma {:induction false} PasswordsLong(order: seq<string>, x: string)
    requires x in PasswordSet(order)
    ensures |x| >= 6
  {
    PasswordSetExactly(order, x);
    var w :| w in order && |w| >= 6 && x in Mutations(w);
  }

  // ---------------------------------------------------------------------
  // usernames, directories, endpoints
  // ---------------------------------------------------------------------

  /** The words of `s` that satisfy `p`, in order. */
  function Keep(s: seq<string>, p: string -> bool): (r: seq<string>)
    ensures |r| <= |s|
    decreases |s|
  {
    if s == [] then []
    else
      var n := |s| - 1;
      Keep(s[..n], p) + (if p(s[n]) then [s[n]] else [])
  }

  lemma {:induction false} KeepExactly(s: seq<string>, p: string -> bool, x: string)
    ensures x in Keep(s, p) <==> x in s && p(x)
    decreases |s|
  {
    if s != [] {
      var n := |s| - 1;
      KeepExactly(s[..n], p, x);
      assert s == s[..n] + [s[n]];
    }
  }

  lemma {:induction false} KeepNoDup(s: seq<string>, p: string -> bool)
    requires NoDup(s)
    ensures NoDup(Keep(s, p))
    decreases |s|
  {
    if s != [] {
      var n := |s| - 1;
      KeepNoDup(s[..n], p);
      KeepExactly(s[..n], p, s[n]);
      assert s[n] !in s[..n];
    }
  }

  predicate IsUsername(w: string) { 3 <= |w| <= 12 }
  predicate IsLong(w: string) { |w| >= 3 }

  /** The usernames: the words of three to twelve characters, in counter
      order. */
  function Usernames(order: seq<string>): seq<string> {
    Keep(order, IsUsername)
  }

  /** The words the directory and endpoint lists are built from. */
  function LongWords(order: seq<string>): seq<string> {
    Keep(order, IsLong)
  }

  function Directory(w: string): string { "/" + w + "/" }

  function Directories(order: seq<string>): (r: seq<string>)
    ensures |r| == |LongWords(order)|
  {
    var long := LongWords(order);
    seq(|long|, i requires 0 <= i < |long| => Directory(long[i]))
  }

  const ApiPatterns: seq<string> := ["api", "v1", "v2", "rest", "graphql"]

  function EndpointPair(p: string, w: string): seq<string> {
    ["/" + p + "/" + w, "/" + w + "/" + p]
  }

  function PairsFor(p: string, long: seq<string>): (r: seq<seq<string>>)
    ensures |r| == |long|
  {
    seq(|long|, j requires 0 <= j < |long| => EndpointPair(p, long[j]))
  }

  /** The endpoint list after the loop has done the first `k` patterns. */
  function EndpointsUpTo(long: seq<string>, k: nat): seq<seq<string>>
    requires k <= |ApiPatterns|
  {
    if k == 0 then [] else EndpointsUpTo(long, k - 1) + PairsFor(ApiPatterns[k - 1], long)
  }

  function Endpoints(order: seq<string>): seq<seq<string>> {
    EndpointsUpTo(LongWords(order), |ApiPatterns|)
  }

  lemma UsernamesExactly(order: seq<string>, x: string)
    ensures x in Usernames(order) <==> x in order && 3 <= |x| <= 12
    ensures NoDup(order) ==> NoDup(Usernames(order))
  {
    KeepExactly(order, IsUsername, x);
    if NoDup(order) {
      KeepNoDup(order, IsUsername);
    }
  }

  lemma DirectoryInjective(a: string, b: string)
    requires Directory(a) == Directory(b)
    ensures a == b
  {
    assert a == Directory(a)[1..|a| + 1];
    assert b == Directory(b)[1..|b| + 1];
  }

  /** One directory per word of three characters or more, each wrapped in
      slashes, none twice. */
  lemma DirectoriesExactly(order: seq<string>, x: string)
    ensures x in Directories(order) <==> exists w :: w in order && |w| >= 3 && x == Directory(w)
    ensures NoDup(order) ==> NoDup(Directories(order))
  {
    var long := LongWords(order);
    var d := Directories(order);
    if x in d {
      var i :| 0 <= i < |d| && d[i] == x;
      KeepExactly(order, IsLong, long[i]);
    }
    if exists w :: w in order && |w| >= 3 && x == Directory(w) {
      var w :| w in order && |w| >= 3 && x == Directory(w);
      KeepExactly(order, IsLong, w);
      var i :| 0 <= i < |long| && long[i] == w;
      assert d[i] == x;
    }
    if NoDup(order) {
      KeepNoDup(order, IsLong);
      forall i, j | 0 <= i < j < |d|
        ensures d[i] != d[j]
      {
        if d[i] == d[j] {
          DirectoryInjective(long[i], long[j]);
        }
      }
    }
  }

  /** Pattern `i` and word `j` give element `i * n + j` of the endpoint
      list, where `n` is the number of words used. */
  lemma {:induction false} EndpointsLength(long: seq<string>, k: nat)
    requires k <= |ApiPatterns|
    ensures |EndpointsUpTo(long, k)| == k * |long|
    decreases k
  {
    if k > 0 {
      EndpointsLength(long, k - 1);
      NextRow(k, |long|);
    }
  }

  lemma {:induction false} EndpointAt(long: seq<string>, k: nat, i: nat, j: nat)
    requires k <= |ApiPatterns| && i < k && j < |long|
    ensures i * |long| + j < |EndpointsUpTo(long, k)|
    ensures EndpointsUpTo(long, k)[i * |long| + j] == EndpointPair(ApiPatterns[i], long[j])
    decreases k
  {
    var n := |long|;
    var prev := EndpointsUpTo(long, k - 1);
    var pairs := PairsFor(ApiPatterns[k - 1], long);
    assert EndpointsUpTo(long, k) == prev + pairs;
    EndpointsLength(long, k - 1);
    if i < k - 1 {
      EndpointAt(long, k - 1, i, j);
    } else {
      assert i * n + j == |prev| + j;
    }
  }

  lemma NextRow(k: nat, n: nat)
    requires k > 0
    ensures k * n == (k - 1) * n + n
  {
  }

  /** Five endpoint pairs per word of three characters or more. */
  lemma EndpointsCount(order: seq<string>)
    ensures |Endpoints(order)| == 5 * |LongWords(order)|
    ensures forall i, j :: 0 <= i < 5 && 0 <= j < |LongWords(order)| ==>
              Endpoints(order)[i * |LongWords(order)| + j] ==
              EndpointPair(ApiPatterns[i], LongWords(order)[j])
  {
    var long := LongWords(order);
    EndpointsLength(long, |ApiPatterns|);
    forall i, j | 0 <= i < 5 && 0 <= j < |long|
      ensures Endpoints(order)[i * |long| + j] == EndpointPair(ApiPatterns[i], long[j])
    {
      EndpointAt(long, |ApiPatterns|, i, j);
    }
  }

  // ---------------------------------------------------------------------
  // The report
  // ---------------------------------------------------------------------

  datatype Report = Report(urlsAnalyzed: nat, uniqueWords: nat, topWords: seq<(string, nat)>)

  function Min(a: nat, b: nat): nat { if a < b then a else b }

  /** The report's counts and `most_common(20)`. */
  function MakeReport(visited: set<string>, order: seq<string>, words: map<string, nat>): Report {
    var basic := MostCommon(order, words);
    var top := Min(20, |basic|);
    Report(|visited|, |words|,
           seq(top, i requires 0 <= i < top => (basic[i], Count(words, basic[i]))))
  }

  /** A list without repeats holds each element once. */
  lemma {:induction false} NoDupOnce(s: seq<string>, x: string)
    requires NoDup(s)
    ensures multiset(s)[x] <= 1
    decreases |s|
  {
    if s != [] {
      assert s == [s[0]] + s[1..];
      assert NoDup(s[1..]);
      NoDupOnce(s[1..], x);
      if s[0] == x {
        assert x !in s[1..];
      }
    }
  }

  /** A rearrangement of a list without repeats has none either. */
  lemma NoDupPermutation(s: seq<string>, t: seq<string>)
    requires NoDup(s) && multiset(s) == multiset(t)
    ensures NoDup(t)
  {
    forall i, j | 0 <= i < j < |t|
      ensures t[i] != t[j]
    {
      if t[i] == t[j] {
        CountedTwice(t, i, j);
        NoDupOnce(s, t[i]);
      }
    }
  }

  lemma CountedTwice(t: seq<string>, i: nat, j: nat)
    requires i < j < |t| && t[i] == t[j]
    ensures multiset(t)[t[i]] >= 2
  {
    assert t == t[..j] + [t[j]] + t[j + 1..];
    assert t[i] in multiset(t[..j]);
  }

  /** The report names one word per key up to twenty, the most counted first,
      each with its count, and counts the counter's keys. */
  lemma ReportSpec(visited: set<string>, order: seq<string>, words: map<string, nat>)
    requires KeyOrder(order, words)
    ensures MakeReport(visited, order, words).uniqueWords == |order|
    ensures |MakeReport(visited, order, words).topWords| == Min(20, |order|)
    ensures forall i :: 0 <= i < |MakeReport(visited, order, words).topWords| ==>
              MakeReport(visited, order, words).topWords[i].0 == MostCommon(order, words)[i]
    ensures forall i, j :: 0 <= i < j < |MakeReport(visited, order, words).topWords| ==>
              MakeReport(visited, order, words).topWords[i].0 !=
              MakeReport(visited, order, words).topWords[j].0
    ensures forall i :: 0 <= i < |MakeReport(visited, order, words).topWords| ==>
              MakeReport(visited, order, words).topWords[i].0 in words &&
              MakeReport(visited, order, words).topWords[i].1 ==
              words[MakeReport(visited, order, words).topWords[i].0]
    ensures forall i, j :: 0 <= i < j < |MakeReport(visited, order, words).topWords| ==>
              MakeReport(visited, order, words).topWords[i].1 >=
              MakeReport(visited, order, words).topWords[j].1
  {
    KeyOrderCard(order, words);
    var basic := MostCommon(order, words);
    MostCommonDescending(order, words);
    assert |basic| == |multiset(basic)| == |multiset(order)| == |order|;
    forall i | 0 <= i < |basic|
      ensures basic[i] in words
    {
      assert basic[i] in multiset(basic);
    }
    TopWordsDistinct(visited, order, words);
  }

  /** No word is named twice in the report. */
  lemma TopWordsDistinct(visited: set<string>, order: seq<string>, words: map<string, nat>)
    requires NoDup(order)
    ensures forall i, j :: 0 <= i < j < |MakeReport(visited, order, words).topWords| ==>
              MakeReport(visited, order, words).topWords[i].0 !=
              MakeReport(visited, order, words).topWords[j].0
  {
    NoDupPermutation(order, MostCommon(order, words));
  }
}
