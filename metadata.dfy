/** The `metadata` dictionary of lists and what one page adds to it: the
    contents of its `<meta>` tags, of its OpenGraph tags and the lines of its
    JSON-LD documents. */
module Metadata {
  import opened Chars
  import opened JsonLd

  /** A dictionary of lists with a default: a key is present once something
      was appended under it. */
  type Store = map<string, seq<string>>

  /** The list under `k`, empty when the key was never used. */
  function Bucket(m: Store, k: string): seq<string> {
    if k in m then m[k] else []
  }

  /** `metadata[k].append(v)`. */
  function Append(m: Store, k: string, v: string): (r: Store)
  {
    m[k := Bucket(m, k) + [v]]
  }

  /** A run of appends `(key, value)`, performed in order. */
  function AppendAll(m: Store, ps: seq<(string, string)>): Store
    decreases |ps|
  {
    if ps == [] then m
    else
      var n := |ps| - 1;
      Append(AppendAll(m, ps[..n]), ps[n].0, ps[n].1)
  }

  /** The values of a run of appends that go under `k`, in order. */
  function ValuesFor(ps: seq<(string, string)>, k: string): (r: seq<string>)
    ensures |r| <= |ps|
    decreases |ps|
  {
    if ps == [] then []
    else
      var n := |ps| - 1;
      ValuesFor(ps[..n], k) + (if ps[n].0 == k then [ps[n].1] else [])
  }

  /** The same key for every value: `metadata[k].extend(vs)` done one
      append at a time. */
  function Tagged(k: string, vs: seq<string>): (r: seq<(string, string)>)
    ensures |r| == |vs| && forall i :: 0 <= i < |vs| ==> r[i] == (k, vs[i])
  {
    seq(|vs|, i requires 0 <= i < |vs| => (k, vs[i]))
  }

  /** The list under a key keeps what it held and gains, at its end, the
      values appended under that key, in order. */
  lemma {:induction false} AppendAllBucket(m: Store, ps: seq<(string, string)>, k: string)
    ensures Bucket(AppendAll(m, ps), k) == Bucket(m, k) + ValuesFor(ps, k)
    decreases |ps|
  {
    if ps != [] {
      var n := |ps| - 1;
      AppendAllBucket(m, ps[..n], k);
    }
  }

  /** Exactly the keys used by some append are added; none is removed. */
  lemma {:induction false} AppendAllKeys(m: Store, ps: seq<(string, string)>)
    ensures AppendAll(m, ps).Keys == m.Keys + set p | p in ps :: p.0
    decreases |ps|
  {
    if ps != [] {
      var n := |ps| - 1;
      AppendAllKeys(m, ps[..n]);
      assert ps == ps[..n] + [ps[n]];
    }
  }

  /** Two runs of appends one after the other are one run. */
  lemma {:induction false} AppendAllConcat(m: Store, a: seq<(string, string)>, b: seq<(string, string)>)
    ensures AppendAll(m, a + b) == AppendAll(AppendAll(m, a), b)
    decreases |b|
  {
    if b == [] {
      assert a + b == a;
    } else {
      var n := |b| - 1;
      var ab := a + b;
      assert ab[..|a| + n] == a + b[..n];
      assert ab[|a| + n] == b[n];
      AppendAllConcat(m, a, b[..n]);
      calc {
        AppendAll(m, ab);
        Append(AppendAll(m, ab[..|a| + n]), ab[|a| + n].0, ab[|a| + n].1);
        Append(AppendAll(AppendAll(m, a), b[..n]), b[n].0, b[n].1);
      }
    }
  }

  /** A value is listed under a key exactly when some append put it there. */
  lemma {:induction false} ValuesForExactly(ps: seq<(string, string)>, k: string, v: string)
    ensures v in ValuesFor(ps, k) <==> (k, v) in ps
    decreases |ps|
  {
    if ps != [] {
      var n := |ps| - 1;
      ValuesForExactly(ps[..n], k, v);
      assert ps == ps[..n] + [ps[n]];
    }
  }

  // ---------------------------------------------------------------------
  // The tags of one page
  // ---------------------------------------------------------------------

  /** A `<meta>` tag; an attribute the tag lacks reads as the empty string. */
  datatype MetaTag = MetaTag(name: string, property: string, content: string)

  const JsonLdKey: string := "json_ld"

  /** The key a `<meta>` tag's content goes under. */
  function MetaKey(t: MetaTag): string {
    "meta_" + Lower(t.name)
  }

  /** The OpenGraph tags are those whose `property` starts with `og:`. */
  predicate IsOpenGraph(t: MetaTag) {
    |t.property| >= 3 && t.property[..3] == "og:"
  }

  /** The appends of the `<meta>` loop: every tag with a non-empty content,
      in document order. */
  function MetaPairs(tags: seq<MetaTag>): (r: seq<(string, string)>)
    ensures |r| <= |tags|
    decreases |tags|
  {
    if tags == [] then []
    else
      var n := |tags| - 1;
      var t := tags[n];
      MetaPairs(tags[..n]) + (if t.content != "" then [(MetaKey(t), t.content)] else [])
  }

  /** The appends of the OpenGraph loop. */
  function OgPairs(tags: seq<MetaTag>): (r: seq<(string, string)>)
    ensures |r| <= |tags|
    decreases |tags|
  {
    if tags == [] then []
    else
      var n := |tags| - 1;
      var t := tags[n];
      OgPairs(tags[..n]) + (if IsOpenGraph(t) && t.content != "" then [(t.property, t.content)] else [])
  }

  /** The lines of a page's JSON-LD documents, one document after the other. */
  function ScriptsEntries(scripts: seq<Json>): seq<string>
    decreases |scripts|
  {
    if scripts == [] then []
    else
      var n := |scripts| - 1;
      ScriptsEntries(scripts[..n]) + Entries(scripts[n])
  }

  /** Everything one page appends to the dictionary, in order. */
  function PagePairs(tags: seq<MetaTag>, scripts: seq<Json>): seq<(string, string)> {
    MetaPairs(tags) + OgPairs(tags) + Tagged(JsonLdKey, ScriptsEntries(scripts))
  }

  /** One more tag in the `<meta>` loop. */
  lemma MetaPairsStep(tags: seq<MetaTag>, i: nat)
    requires i < |tags|
    ensures tags[i].content != "" ==>
              MetaPairs(tags[..i + 1]) == MetaPairs(tags[..i]) + [(MetaKey(tags[i]), tags[i].content)]
    ensures tags[i].content == "" ==> MetaPairs(tags[..i + 1]) == MetaPairs(tags[..i])
  {
    assert tags[..i + 1][..i] == tags[..i];
  }

  /** One more tag in the OpenGraph loop. */
  lemma OgPairsStep(tags: seq<MetaTag>, i: nat)
    requires i < |tags|
    ensures IsOpenGraph(tags[i]) && tags[i].content != "" ==>
              OgPairs(tags[..i + 1]) == OgPairs(tags[..i]) + [(tags[i].property, tags[i].content)]
    ensures !(IsOpenGraph(tags[i]) && tags[i].content != "") ==> OgPairs(tags[..i + 1]) == OgPairs(tags[..i])
  {
    assert tags[..i + 1][..i] == tags[..i];
  }

  /** One more document in the JSON-LD loop. */
  lemma ScriptsEntriesStep(scripts: seq<Json>, i: nat)
    requires i < |scripts|
    ensures ScriptsEntries(scripts[..i + 1]) == ScriptsEntries(scripts[..i]) + Entries(scripts[i])
  {
    assert scripts[..i + 1][..i] == scripts[..i];
  }

  lemma {:induction false} MetaPairsExactly(tags: seq<MetaTag>, p: (string, string))
    ensures p in MetaPairs(tags) <==>
            exists t :: t in tags && t.content != "" && p == (MetaKey(t), t.content)
    decreases |tags|
  {
    if tags != [] {
      var n := |tags| - 1;
      MetaPairsExactly(tags[..n], p);
      assert tags == tags[..n] + [tags[n]];
    }
  }

  lemma {:induction false} OgPairsExactly(tags: seq<MetaTag>, p: (string, string))
    ensures p in OgPairs(tags) <==>
            exists t :: t in tags && IsOpenGraph(t) && t.content != "" && p == (t.property, t.content)
    decreases |tags|
  {
    if tags != [] {
      var n := |tags| - 1;
      OgPairsExactly(tags[..n], p);
      assert tags == tags[..n] + [tags[n]];
    }
  }

  lemma {:induction false} ScriptsEntriesExactly(scripts: seq<Json>, e: string)
    ensures e in ScriptsEntries(scripts) <==> exists d :: d in scripts && e in Entries(d)
    decreases |scripts|
  {
    if scripts != [] {
      var n := |scripts| - 1;
      var last := scripts[n];
      ScriptsEntriesExactly(scripts[..n], e);
      assert scripts == scripts[..n] + [last];
      if e in Entries(last) {
        assert last in scripts;
      }
      if exists d :: d in scripts && e in Entries(d) {
        var d :| d in scripts && e in Entries(d);
        if d != last {
          assert d in scripts[..n];
        }
      }
    }
  }

  /** The JSON-LD list gains exactly the lines of the page's documents: no
      `<meta>` or OpenGraph key can be `json_ld`. */
  lemma PageJsonLd(m: Store, tags: seq<MetaTag>, scripts: seq<Json>)
    ensures Bucket(AppendAll(m, PagePairs(tags, scripts)), JsonLdKey) ==
            Bucket(m, JsonLdKey) + ScriptsEntries(scripts)
  {
    var ab := MetaPairs(tags) + OgPairs(tags);
    var c := Tagged(JsonLdKey, ScriptsEntries(scripts));
    AppendAllConcat(m, ab, c);
    AppendAllBucket(m, ab, JsonLdKey);
    AppendAllBucket(AppendAll(m, ab), c, JsonLdKey);
    TaggedValues(JsonLdKey, ScriptsEntries(scripts));
    TagsNotJsonLd(tags);
  }

  /** No append of the two tag loops goes under `json_ld`. */
  lemma TagsNotJsonLd(tags: seq<MetaTag>)
    ensures ValuesFor(MetaPairs(tags) + OgPairs(tags), JsonLdKey) == []
  {
    var ps := MetaPairs(tags) + OgPairs(tags);
    forall p | p in ps
      ensures p.0 != JsonLdKey
    {
      if p in MetaPairs(tags) {
        MetaPairNotJsonLd(tags, p);
      } else {
        OgPairNotJsonLd(tags, p);
      }
    }
    ValuesForNone(ps, JsonLdKey);
  }

  lemma MetaPairNotJsonLd(tags: seq<MetaTag>, p: (string, string))
    requires p in MetaPairs(tags)
    ensures p.0 != JsonLdKey
  {
    MetaPairsExactly(tags, p);
    var t :| t in tags && t.content != "" && p == (MetaKey(t), t.content);
    assert MetaKey(t)[0] == 'm';
  }

  lemma OgPairNotJsonLd(tags: seq<MetaTag>, p: (string, string))
    requires p in OgPairs(tags)
    ensures p.0 != JsonLdKey
  {
    OgPairsExactly(tags, p);
    var t :| t in tags && IsOpenGraph(t) && t.content != "" && p == (t.property, t.content);
    assert t.property[0] == 'o';
  }

  lemma {:induction false} ValuesForNone(ps: seq<(string, string)>, k: string)
    requires forall p :: p in ps ==> p.0 != k
    ensures ValuesFor(ps, k) == []
    decreases |ps|
  {
    if ps != [] {
      var n := |ps| - 1;
      assert ps[n] in ps;
      ValuesForNone(ps[..n], k);
    }
  }

  /** One more append at the end of a run. */
  lemma AppendAllSnoc(m: Store, ps: seq<(string, string)>, k: string, v: string)
    ensures AppendAll(m, ps + [(k, v)]) == Append(AppendAll(m, ps), k, v)
  {
    assert (ps + [(k, v)])[..|ps|] == ps;
  }

  /** The list under `k` grown by `vs` at its end, every other key left
      alone; a key gains an entry only when something is appended to it. */
  function Extend(m: Store, k: string, vs: seq<string>): Store {
    if vs == [] then m else m[k := Bucket(m, k) + vs]
  }

  /** Appending the values `vs` one by one under `k` grows that one list by
      `vs`. */
  lemma {:induction false} TaggedIsExtend(m: Store, k: string, vs: seq<string>)
    ensures AppendAll(m, Tagged(k, vs)) == Extend(m, k, vs)
    decreases |vs|
  {
    if vs != [] {
      var n := |vs| - 1;
      assert Tagged(k, vs)[..n] == Tagged(k, vs[..n]);
      TaggedIsExtend(m, k, vs[..n]);
      var before := Extend(m, k, vs[..n]);
      assert AppendAll(m, Tagged(k, vs)) == Append(before, k, vs[n]);
      assert Bucket(before, k) + [vs[n]] == Bucket(m, k) + vs by {
        assert vs == vs[..n] + [vs[n]];
      }
    } else {
      assert Tagged(k, vs) == [];
    }
  }

  /** Growing a list twice grows it by both, in order. */
  lemma ExtendTwice(m: Store, k: string, a: seq<string>, b: seq<string>)
    ensures Extend(Extend(m, k, a), k, b) == Extend(m, k, a + b)
  {
    if a == [] {
      assert a + b == b;
    } else if b == [] {
      assert a + b == a;
    } else {
      assert Bucket(Extend(m, k, a), k) + b == Bucket(m, k) + (a + b);
    }
  }

  lemma {:induction false} TaggedValues(k: string, vs: seq<string>)
    ensures ValuesFor(Tagged(k, vs), k) == vs
    decreases |vs|
  {
    if vs != [] {
      var n := |vs| - 1;
      assert Tagged(k, vs)[..n] == Tagged(k, vs[..n]);
      TaggedValues(k, vs[..n]);
      assert vs == vs[..n] + [vs[n]];
    }
  }

  /** An OpenGraph tag without a `name` attribute has its content listed
      twice: under its property and, through the `<meta>` loop, under the
      bare key `meta_`. */
  lemma OpenGraphTwice(m: Store, tags: seq<MetaTag>, scripts: seq<Json>, t: MetaTag)
    requires t in tags && IsOpenGraph(t) && t.content != "" && t.name == ""
    ensures t.content in Bucket(AppendAll(m, PagePairs(tags, scripts)), "meta_")
    ensures t.content in Bucket(AppendAll(m, PagePairs(tags, scripts)), t.property)
  {
    var ps := PagePairs(tags, scripts);
    MetaPairsExactly(tags, ("meta_", t.content));
    assert MetaKey(t) == "meta_";
    OgPairsExactly(tags, (t.property, t.content));
    ValuesForExactly(ps, "meta_", t.content);
    ValuesForExactly(ps, t.property, t.content);
    AppendAllBucket(m, ps, "meta_");
    AppendAllBucket(m, ps, t.property);
  }
}
