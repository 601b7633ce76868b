/** The word counter: a map from word to count, whose keys also have an
    order, the order in which they were first counted. */
module Counter {

  /** A counter's value, zero for a word it has never seen. */
  function Count(words: map<string, nat>, w: string): nat {
    if w in words then words[w] else 0
  }

  /** Every word of a page's set counted once more. */
  function AddOnce(words: map<string, nat>, ws: set<string>): (r: map<string, nat>)
    ensures r.Keys == words.Keys + ws
    ensures forall w :: Count(r, w) == Count(words, w) + (if w in ws then 1 else 0)
  {
    map w | w in words.Keys + ws :: Count(words, w) + (if w in ws then 1 else 0)
  }

  predicate NoDup(s: seq<string>) {
    forall i, j :: 0 <= i < j < |s| ==> s[i] != s[j]
  }

  /** `order` lists the keys of `words`, each once. */
  ghost predicate KeyOrder(order: seq<string>, words: map<string, nat>) {
    NoDup(order) && forall w :: w in order <==> w in words
  }

  /** `r` counts every word of `ws` once more than `words` does, and
      nothing else differently. */
  ghost predicate CountsOnce(r: map<string, nat>, words: map<string, nat>, ws: set<string>) {
    r.Keys == words.Keys + ws &&
    forall v :: Count(r, v) == Count(words, v) + (if v in ws then 1 else 0)
  }

  /** Counting one more word of the page keeps the fold's invariant. */
  lemma CountsOnceStep(r: map<string, nat>, words: map<string, nat>, done: set<string>, w: string)
    requires CountsOnce(r, words, done) && w !in done
    ensures CountsOnce(r[w := Count(r, w) + 1], words, done + {w})
  {
    var r' := r[w := Count(r, w) + 1];
    forall v
      ensures Count(r', v) == Count(words, v) + (if v in done + {w} then 1 else 0)
    {
      if v != w {
        assert Count(r', v) == Count(r, v);
      }
    }
  }

  /** The fold's invariant pins the counter down: it is `AddOnce`. */
  lemma CountsOnceIsAddOnce(r: map<string, nat>, words: map<string, nat>, ws: set<string>)
    requires CountsOnce(r, words, ws)
    ensures r == AddOnce(words, ws)
  {
    var a := AddOnce(words, ws);
    forall v | v in r.Keys
      ensures r[v] == a[v]
    {
      assert Count(r, v) == r[v] && Count(a, v) == a[v];
    }
  }

  /** Counting `w` once more keeps the key order, `w` joining at the end
      when it is new. */
  lemma KeyOrderStep(order: seq<string>, words: map<string, nat>, w: string)
    requires KeyOrder(order, words)
    ensures KeyOrder(if w in words then order else order + [w], words[w := Count(words, w) + 1])
  {
    if w !in words {
      var o := order + [w];
      forall i, j | 0 <= i < j < |o|
        ensures o[i] != o[j]
      {
        if j == |order| {
          assert o[i] in order;
        }
      }
    }
  }

  /** One turn of the fold over a page's word set: `w`, not yet counted,
      is counted, and the key order follows. */
  lemma FoldStep(words: map<string, nat>, order: seq<string>, start: map<string, nat>,
                 ws: set<string>, rest: set<string>, w: string)
    requires w in rest && rest <= ws
    requires CountsOnce(words, start, ws - rest) && KeyOrder(order, words)
    ensures CountsOnce(words[w := Count(words, w) + 1], start, ws - (rest - {w}))
    ensures KeyOrder(if w in words then order else order + [w], words[w := Count(words, w) + 1])
  {
    CountsOnceStep(words, start, ws - rest, w);
    assert (ws - rest) + {w} == ws - (rest - {w});
    KeyOrderStep(order, words, w);
  }

  /** A key order that only grew, over the same keys, did not change. */
  lemma KeyOrderSame(o1: seq<string>, o2: seq<string>, words: map<string, nat>)
    requires KeyOrder(o1, words) && KeyOrder(o2, words) && o1 <= o2
    ensures o1 == o2
  {
    KeyOrderCard(o1, words);
    KeyOrderCard(o2, words);
  }

  /** A list without repetitions has as many elements as its set. */
  lemma {:induction false} NoDupCard(s: seq<string>)
    requires NoDup(s)
    ensures |set x | x in s| == |s|
    decreases |s|
  {
    if s != [] {
      var n := |s| - 1;
      NoDupCard(s[..n]);
      assert (set x | x in s) == (set x | x in s[..n]) + {s[n]};
      assert s[n] !in (set x | x in s[..n]);
    }
  }

  /** The counter has as many keys as its order lists. */
  lemma KeyOrderCard(order: seq<string>, words: map<string, nat>)
    requires KeyOrder(order, words)
    ensures |words| == |order|
  {
    NoDupCard(order);
    assert words.Keys == set x | x in order;
  }
}
