/** The walk over JSON-LD structured data that records, for every object
    member whose value is a string of more than two characters, the line
    `key: value`. */
module JsonLd {

  /** A parsed JSON value. An object keeps its members in the order the
      parser produced them, which is the order the walk visits them. */
  datatype Json =
    | JNull
    | JBool(b: bool)
    | JNumber(x: real)
    | JString(s: string)
    | JArray(items: seq<Json>)
    | JObject(members: seq<(string, Json)>)

  predicate IsContainer(v: Json) { v.JArray? || v.JObject? }

  /** The line recorded for the member `key` with the string value `value`. */
  function Line(key: string, value: string): (r: string)
    ensures |r| == |key| + 2 + |value|
    ensures r[..|key|] == key && r[|key|..|key| + 2] == ": " && r[|key| + 2..] == value
  {
    key + ": " + value
  }

  /** The lines the walk records for `d`, in the order it records them.
      A scalar at the top records nothing. */
  function Entries(d: Json): (r: seq<string>)
    ensures !IsContainer(d) ==> r == []
    decreases d, 2
  {
    match d
    case JObject(ms) => MembersEntries(d, |ms|)
    case JArray(items) => ItemsEntries(d, |items|)
    case _ => []
  }

  /** The lines recorded for the first `n` members of the object `d`. */
  function MembersEntries(d: Json, n: nat): seq<string>
    requires d.JObject? && n <= |d.members|
    decreases d, 1, n
  {
    if n == 0 then [] else MembersEntries(d, n - 1) + MemberEntries(d, n - 1)
  }

  /** The lines recorded for member `i` of the object `d`: its own line when
      its value is a long enough string, else whatever lies inside it. */
  function MemberEntries(d: Json, i: nat): seq<string>
    requires d.JObject? && i < |d.members|
    decreases d, 0, 0
  {
    var (k, v) := d.members[i];
    if v.JString? && |v.s| > 2 then [Line(k, v.s)]
    else if IsContainer(v) then Entries(v)
    else []
  }

  /** The lines recorded for the first `n` items of the array `d`. */
  function ItemsEntries(d: Json, n: nat): seq<string>
    requires d.JArray? && n <= |d.items|
    decreases d, 1, n
  {
    if n == 0 then [] else ItemsEntries(d, n - 1) + ItemEntries(d, n - 1)
  }

  /** The lines recorded for item `i` of the array `d`. */
  function ItemEntries(d: Json, i: nat): seq<string>
    requires d.JArray? && i < |d.items|
    decreases d, 0, 0
  {
    Entries(d.items[i])
  }

  /** One more member: its lines follow those of the members before it. */
  lemma MembersEntriesStep(d: Json, i: nat)
    requires d.JObject? && i < |d.members|
    ensures MembersEntries(d, i + 1) == MembersEntries(d, i) + MemberEntries(d, i)
  {
  }

  /** One more item: its lines follow those of the items before it. */
  lemma ItemsEntriesStep(d: Json, i: nat)
    requires d.JArray? && i < |d.items|
    ensures ItemsEntries(d, i + 1) == ItemsEntries(d, i) + ItemEntries(d, i)
  {
  }

  // ---------------------------------------------------------------------
  // What gets recorded, stated without the walk
  // ---------------------------------------------------------------------

  /** `o` is `d` itself or lies somewhere inside it. */
  ghost predicate Within(o: Json, d: Json)
    decreases d
  {
    o == d ||
    (d.JArray? && exists i :: 0 <= i < |d.items| && Within(o, d.items[i])) ||
    (d.JObject? && exists i :: 0 <= i < |d.members| && Within(o, d.members[i].1))
  }

  /** Some object inside `d` has the member `k` whose value is the string
      `v`, longer than two characters. */
  ghost predicate Recorded(k: string, v: string, d: Json) {
    |v| > 2 && exists o :: Within(o, d) && o.JObject? && (k, JString(v)) in o.members
  }

  lemma {:induction false} MembersEntriesHas(d: Json, n: nat, i: nat, e: string)
    requires d.JObject? && i < n <= |d.members| && e in MemberEntries(d, i)
    ensures e in MembersEntries(d, n)
    decreases n
  {
    if i < n - 1 {
      MembersEntriesHas(d, n - 1, i, e);
    }
  }

  lemma {:induction false} ItemsEntriesHas(d: Json, n: nat, i: nat, e: string)
    requires d.JArray? && i < n <= |d.items| && e in Entries(d.items[i])
    ensures e in ItemsEntries(d, n)
    decreases n
  {
    if i < n - 1 {
      ItemsEntriesHas(d, n - 1, i, e);
    }
  }

  lemma {:induction false} MembersEntriesFrom(d: Json, n: nat, e: string) returns (i: nat)
    requires d.JObject? && n <= |d.members| && e in MembersEntries(d, n)
    ensures i < n && e in MemberEntries(d, i)
    decreases n
  {
    if e in MemberEntries(d, n - 1) {
      i := n - 1;
    } else {
      i := MembersEntriesFrom(d, n - 1, e);
    }
  }

  lemma {:induction false} ItemsEntriesFrom(d: Json, n: nat, e: string) returns (i: nat)
    requires d.JArray? && n <= |d.items| && e in ItemsEntries(d, n)
    ensures i < n && e in Entries(d.items[i])
    decreases n
  {
    if e in Entries(d.items[n - 1]) {
      i := n - 1;
    } else {
      i := ItemsEntriesFrom(d, n - 1, e);
    }
  }

  /** A string has nothing inside it. */
  lemma WithinScalar(o: Json, d: Json)
    requires !IsContainer(d) && Within(o, d)
    ensures o == d
  {
  }

  /** Every recorded member is found by the walk. */
  lemma {:induction false} RecordedIsFound(k: string, v: string, o: Json, d: Json)
    requires |v| > 2 && Within(o, d) && o.JObject? && (k, JString(v)) in o.members
    ensures Line(k, v) in Entries(d)
    decreases d
  {
    if o == d {
      var i :| 0 <= i < |d.members| && d.members[i] == (k, JString(v));
      assert Line(k, v) in MemberEntries(d, i);
      MembersEntriesHas(d, |d.members|, i, Line(k, v));
    } else if d.JArray? {
      var i :| 0 <= i < |d.items| && Within(o, d.items[i]);
      RecordedIsFound(k, v, o, d.items[i]);
      ItemsEntriesHas(d, |d.items|, i, Line(k, v));
    } else {
      var i :| 0 <= i < |d.members| && Within(o, d.members[i].1);
      var c := d.members[i].1;
      if !IsContainer(c) {
        WithinScalar(o, c);
      }
      RecordedIsFound(k, v, o, c);
      assert Line(k, v) in MemberEntries(d, i);
      MembersEntriesHas(d, |d.members|, i, Line(k, v));
    }
  }

  /** Every line the walk records comes from a recorded member. */
  lemma {:induction false} FoundIsRecorded(e: string, d: Json) returns (k: string, v: string)
    requires e in Entries(d)
    ensures e == Line(k, v) && Recorded(k, v, d)
    decreases d
  {
    if d.JArray? {
      var i := ItemsEntriesFrom(d, |d.items|, e);
      k, v := FoundIsRecorded(e, d.items[i]);
      var o :| Within(o, d.items[i]) && o.JObject? && (k, JString(v)) in o.members;
      assert Within(o, d);
    } else {
      var i := MembersEntriesFrom(d, |d.members|, e);
      var (key, c) := d.members[i];
      if c.JString? && |c.s| > 2 {
        k, v := key, c.s;
        assert d.members[i] == (k, JString(v));
        assert Within(d, d);
      } else {
        k, v := FoundIsRecorded(e, c);
        var o :| Within(o, c) && o.JObject? && (k, JString(v)) in o.members;
        assert Within(o, d);
      }
    }
  }

  /** The walk records exactly the lines of the recorded members. */
  lemma EntriesExactly(d: Json, e: string)
    ensures e in Entries(d) <==> exists k, v :: e == Line(k, v) && Recorded(k, v, d)
  {
    if e in Entries(d) {
      var k, v := FoundIsRecorded(e, d);
    }
    if exists k, v :: e == Line(k, v) && Recorded(k, v, d) {
      var k, v :| e == Line(k, v) && Recorded(k, v, d);
      var o :| Within(o, d) && o.JObject? && (k, JString(v)) in o.members;
      RecordedIsFound(k, v, o, d);
    }
  }

  /** Strings placed directly in an array record nothing. */
  lemma {:induction false} StringItemsRecordNothing(d: Json, n: nat)
    requires d.JArray? && n <= |d.items|
    requires forall i :: 0 <= i < |d.items| ==> !IsContainer(d.items[i])
    ensures ItemsEntries(d, n) == []
    decreases n
  {
    if n > 0 {
      StringItemsRecordNothing(d, n - 1);
    }
  }

  /** Members are visited in order: splitting an object's members splits
      its lines at the same place. */
  lemma {:induction false} MembersInOrder(a: seq<(string, Json)>, b: seq<(string, Json)>, n: nat)
    requires n <= |b|
    ensures MembersEntries(JObject(a + b), |a| + n) ==
            MembersEntries(JObject(a), |a|) + MembersEntries(JObject(b), n)
    decreases n
  {
    var d := JObject(a + b);
    if n == 0 {
      MembersPrefix(a, b, |a|);
    } else {
      MembersInOrder(a, b, n - 1);
      assert d.members[|a| + n - 1] == b[n - 1];
      assert MemberEntries(d, |a| + n - 1) == MemberEntries(JObject(b), n - 1);
    }
  }

  lemma {:induction false} MembersPrefix(a: seq<(string, Json)>, b: seq<(string, Json)>, n: nat)
    requires n <= |a|
    ensures MembersEntries(JObject(a + b), n) == MembersEntries(JObject(a), n)
    decreases n
  {
    if n > 0 {
      MembersPrefix(a, b, n - 1);
      assert (a + b)[n - 1] == a[n - 1];
      assert MemberEntries(JObject(a + b), n - 1) == MemberEntries(JObject(a), n - 1);
    }
  }

  /** A product description: the type and the name are recorded, the
      two-character `sku` and the number are not, and the nested brand
      object contributes its own name line, under its own key. */
  lemma ProductExample(d: Json)
    requires d == JObject([("@type", JString("Thing")), ("name", JString("Widget")),
                           ("sku", JString("A1")), ("price", JNumber(9.5)),
                           ("brand", JObject([("name", JString("Acme"))]))])
    ensures Entries(d) == ["@type: Thing", "name: Widget", "name: Acme"]
  {
    var brand := JObject([("name", JString("Acme"))]);
    assert Line("name", "Acme") == "name: Acme";
    assert Line("@type", "Thing") == "@type: Thing";
    assert Line("name", "Widget") == "name: Widget";
    assert MemberEntries(brand, 0) == ["name: Acme"];
    assert MembersEntries(brand, 1) == MembersEntries(brand, 0) + MemberEntries(brand, 0);
    assert MemberEntries(d, 4) == ["name: Acme"];
    assert MemberEntries(d, 3) == [];
    assert MemberEntries(d, 2) == [];
    assert MemberEntries(d, 1) == ["name: Widget"];
    assert MemberEntries(d, 0) == ["@type: Thing"];
    assert MembersEntries(d, 1) == MembersEntries(d, 0) + MemberEntries(d, 0);
  }
}
