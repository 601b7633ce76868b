/** The text clean-up of `AdvancedCeWL.analyze_page`: split the page text
    into lines, strip each line, split each line at every double space,
    strip each piece, drop the empty pieces and join the rest with single
    spaces. */
module TextNorm {
  import opened Chars

  // ---------------------------------------------------------------------
  // The string operations used, as Python defines them
  // ---------------------------------------------------------------------

  /** The first line boundary at or after `i`, or `|s|`. */
  function LineEnd(s: string, i: nat): (r: nat)
    requires i <= |s|
    ensures i <= r <= |s|
    ensures r < |s| ==> IsLineBoundary(s[r])
    ensures forall k :: i <= k < r ==> !IsLineBoundary(s[k])
    decreases |s| - i
  {
    if i == |s| || IsLineBoundary(s[i]) then i else LineEnd(s, i + 1)
  }

  /** The end of the line break at `i`: `\r\n` is one break. */
  function BreakEnd(s: string, i: nat): (next: nat)
    requires i < |s| && IsLineBoundary(s[i])
    ensures i < next <= |s|
    ensures forall k :: i <= k < next ==> IsLineBoundary(s[k])
  {
    if s[i] == '\r' && i + 1 < |s| && s[i + 1] == '\n' then i + 2 else i + 1
  }

  /** `str.splitlines()`: `\r\n` ends one line, and a final line boundary
      does not start an empty last line. */
  function SplitLines(s: string): (lines: seq<string>)
    decreases |s|
  {
    if s == [] then []
    else
      var i := LineEnd(s, 0);
      if i == |s| then [s]
      else [s[..i]] + SplitLines(s[BreakEnd(s, i)..])
  }

  function StripLeft(s: string): (r: string)
    ensures |r| <= |s| && r == s[|s| - |r|..]
    ensures r != [] ==> !IsSpace(r[0])
  {
    if s != [] && IsSpace(s[0]) then StripLeft(s[1..]) else s
  }

  function StripRight(s: string): (r: string)
    ensures |r| <= |s| && r == s[..|r|]
    ensures r != [] ==> !IsSpace(r[|r| - 1])
  {
    if s != [] && IsSpace(s[|s| - 1]) then StripRight(s[..|s| - 1]) else s
  }

  /** `str.strip()`. */
  function Strip(s: string): string {
    StripRight(StripLeft(s))
  }

  predicate TwoSpacesAt(s: string, i: nat)
    requires i + 1 < |s|
  {
    s[i] == ' ' && s[i + 1] == ' '
  }

  /** The first `j >= i` at which two spaces start, or `|s|`. */
  function NextDoubleSpace(s: string, i: nat): (r: nat)
    requires i <= |s|
    ensures i <= r <= |s|
    ensures r < |s| ==> r + 1 < |s| && TwoSpacesAt(s, r)
    ensures forall k :: i <= k < r && k + 1 < |s| ==> !TwoSpacesAt(s, k)
    decreases |s| - i
  {
    if i + 1 >= |s| then |s|
    else if TwoSpacesAt(s, i) then i
    else NextDoubleSpace(s, i + 1)
  }

  /** `str.split("  ")`: the pieces between non-overlapping double spaces,
      found from the left. */
  function SplitOnDoubleSpace(s: string): (pieces: seq<string>)
    decreases |s|
  {
    var i := NextDoubleSpace(s, 0);
    if i == |s| then [s] else [s[..i]] + SplitOnDoubleSpace(s[i + 2..])
  }

  /** The stripped, non-empty pieces of one line. */
  function PhraseChunks(phrases: seq<string>): seq<string> {
    if phrases == [] then []
    else
      var c := Strip(phrases[0]);
      (if c == [] then [] else [c]) + PhraseChunks(phrases[1..])
  }

  /** The chunks of a sequence of lines, in order. */
  function Chunks(lines: seq<string>): seq<string> {
    if lines == [] then []
    else PhraseChunks(SplitOnDoubleSpace(Strip(lines[0]))) + Chunks(lines[1..])
  }

  /** `' '.join(xs)`. */
  function Join(xs: seq<string>): string {
    if xs == [] then ""
    else if |xs| == 1 then xs[0]
    else xs[0] + " " + Join(xs[1..])
  }

  /** The text `analyze_page` hands to the extractors. */
  function NormaliseText(text: string): string {
    Join(Chunks(SplitLines(text)))
  }

  // ---------------------------------------------------------------------
  // The shape of the result
  // ---------------------------------------------------------------------

  predicate NoLineBoundary(s: string) {
    forall i :: 0 <= i < |s| ==> !IsLineBoundary(s[i])
  }

  predicate NoDoubleSpace(s: string) {
    forall i :: 0 <= i < |s| - 1 ==> !TwoSpacesAt(s, i)
  }

  predicate Trimmed(s: string) {
    s != [] ==> !IsSpace(s[0]) && !IsSpace(s[|s| - 1])
  }

  /** What every chunk looks like. */
  predicate IsChunk(c: string) {
    c != [] && Trimmed(c) && NoLineBoundary(c) && NoDoubleSpace(c)
  }

  /** The characters that are not white space, in order. */
  function NonSpace(s: string): string {
    if s == [] then [] else (if IsSpace(s[0]) then [] else [s[0]]) + NonSpace(s[1..])
  }

  function NonSpaceAll(xs: seq<string>): string {
    if xs == [] then [] else NonSpace(xs[0]) + NonSpaceAll(xs[1..])
  }

  // ---------------------------------------------------------------------
  // Every chunk is a chunk
  // ---------------------------------------------------------------------

  lemma {:induction false} SplitLinesHaveNoBoundary(s: string)
    ensures forall l <- SplitLines(s) :: NoLineBoundary(l)
    decreases |s|
  {
    if s != [] {
      var i := LineEnd(s, 0);
      if i < |s| {
        SplitLinesHaveNoBoundary(s[BreakEnd(s, i)..]);
      }
    }
  }

  lemma {:induction false} SplitOnDoubleSpaceShape(s: string)
    ensures forall p <- SplitOnDoubleSpace(s) :: NoDoubleSpace(p)
    ensures NoLineBoundary(s) ==> forall p <- SplitOnDoubleSpace(s) :: NoLineBoundary(p)
    decreases |s|
  {
    var i := NextDoubleSpace(s, 0);
    if i < |s| {
      SplitOnDoubleSpaceShape(s[i + 2..]);
      SliceShape(s, s[..i], 0);
      forall k | 0 <= k < i - 1
        ensures !TwoSpacesAt(s[..i], k)
      {
        assert !TwoSpacesAt(s, k);
      }
    }
  }

  lemma SliceShape(s: string, r: string, a: nat)
    requires a + |r| <= |s| && r == s[a..a + |r|]
    ensures NoLineBoundary(s) ==> NoLineBoundary(r)
    ensures NoDoubleSpace(s) ==> NoDoubleSpace(r)
  {
    assert forall k :: 0 <= k < |r| ==> r[k] == s[a + k];
    if NoDoubleSpace(s) {
      forall k | 0 <= k < |r| - 1
        ensures !TwoSpacesAt(r, k)
      {
        assert !TwoSpacesAt(s, a + k);
      }
    }
  }

  /** `Strip(s)` is a slice of `s`. */
  lemma StripIsSlice(s: string) returns (a: nat)
    ensures a + |Strip(s)| <= |s| && Strip(s) == s[a..a + |Strip(s)|]
  {
    var l := StripLeft(s);
    a := |s| - |l|;
    assert l == s[a..];
    assert Strip(s) == l[..|Strip(s)|];
  }

  lemma StripTrimmed(s: string)
    ensures Trimmed(Strip(s))
  {
    var l := StripLeft(s);
    var r := StripRight(l);
    if r != [] {
      assert r[0] == l[0];
    }
  }

  lemma StripShape(s: string)
    ensures Trimmed(Strip(s))
    ensures NoLineBoundary(s) ==> NoLineBoundary(Strip(s))
    ensures NoDoubleSpace(s) ==> NoDoubleSpace(Strip(s))
  {
    StripTrimmed(s);
    var a := StripIsSlice(s);
    SliceShape(s, Strip(s), a);
  }

  lemma {:induction false} PhraseChunksShape(phrases: seq<string>)
    requires forall p <- phrases :: NoLineBoundary(p) && NoDoubleSpace(p)
    ensures forall c <- PhraseChunks(phrases) :: IsChunk(c)
  {
    if phrases != [] {
      var c := Strip(phrases[0]);
      assert phrases[0] in phrases;
      StripShape(phrases[0]);
      var rest := phrases[1..];
      assert forall p <- rest :: p in phrases;
      PhraseChunksShape(rest);
      var head: seq<string> := if c == [] then [] else [c];
      assert forall x <- head :: IsChunk(x);
      assert PhraseChunks(phrases) == head + PhraseChunks(rest);
    }
  }

  lemma {:induction false} ChunksShape(lines: seq<string>)
    requires forall l <- lines :: NoLineBoundary(l)
    ensures forall c <- Chunks(lines) :: IsChunk(c)
  {
    if lines != [] {
      StripShape(lines[0]);
      SplitOnDoubleSpaceShape(Strip(lines[0]));
      PhraseChunksShape(SplitOnDoubleSpace(Strip(lines[0])));
      ChunksShape(lines[1..]);
    }
  }

  lemma {:induction false} JoinShape(xs: seq<string>)
    requires forall c <- xs :: IsChunk(c)
    ensures var r := Join(xs);
            Trimmed(r) && NoLineBoundary(r) && NoDoubleSpace(r) && (r == [] <==> xs == [])
  {
    if |xs| >= 2 {
      assert xs[0] in xs;
      assert forall c <- xs[1..] :: c in xs;
      JoinShape(xs[1..]);
      var a, b := xs[0], Join(xs[1..]);
      var r := a + " " + b;
      assert r == Join(xs);
      assert r[|a|] == ' ' && r[|a| - 1] == a[|a| - 1] && r[|a| + 1] == b[0];
      forall i | 0 <= i < |r| - 1
        ensures !TwoSpacesAt(r, i)
      {
        if i + 1 < |a| {
          assert r[i] == a[i] && r[i + 1] == a[i + 1];
          assert !TwoSpacesAt(a, i);
        } else if i > |a| {
          assert r[i] == b[i - |a| - 1] && r[i + 1] == b[i - |a|];
          assert !TwoSpacesAt(b, i - |a| - 1);
        }
      }
      forall i | 0 <= i < |r|
        ensures !IsLineBoundary(r[i])
      {
        if i < |a| {
          assert r[i] == a[i];
        } else if i > |a| {
          assert r[i] == b[i - |a| - 1];
        }
      }
      assert r[|r| - 1] == b[|b| - 1];
    } else if |xs| == 1 {
      assert xs[0] in xs;
    }
  }

  // ---------------------------------------------------------------------
  // No character other than white space is lost or added
  // ---------------------------------------------------------------------

  lemma {:induction false} NonSpaceConcat(a: string, b: string)
    ensures NonSpace(a + b) == NonSpace(a) + NonSpace(b)
  {
    if a != [] {
      assert (a + b)[1..] == a[1..] + b;
      NonSpaceConcat(a[1..], b);
    } else {
      assert a + b == b;
    }
  }

  lemma {:induction false} NonSpaceOfSpaces(s: string)
    ensures NonSpace(s) == [] <==> forall i :: 0 <= i < |s| ==> IsSpace(s[i])
  {
    if s != [] {
      NonSpaceOfSpaces(s[1..]);
      assert forall i :: 1 <= i < |s| ==> s[i] == s[1..][i - 1];
    }
  }

  lemma {:induction false} NonSpaceAllConcat(xs: seq<string>, ys: seq<string>)
    ensures NonSpaceAll(xs + ys) == NonSpaceAll(xs) + NonSpaceAll(ys)
  {
    if xs != [] {
      assert (xs + ys)[1..] == xs[1..] + ys;
      NonSpaceAllConcat(xs[1..], ys);
    } else {
      assert xs + ys == ys;
    }
  }

  lemma {:induction false} NonSpaceStripLeft(s: string)
    ensures NonSpace(StripLeft(s)) == NonSpace(s)
  {
    if s != [] && IsSpace(s[0]) {
      NonSpaceStripLeft(s[1..]);
    }
  }

  lemma {:induction false} NonSpaceStripRight(s: string)
    ensures NonSpace(StripRight(s)) == NonSpace(s)
  {
    if s != [] && IsSpace(s[|s| - 1]) {
      var init := s[..|s| - 1];
      NonSpaceStripRight(init);
      assert s == init + [s[|s| - 1]];
      NonSpaceConcat(init, [s[|s| - 1]]);
    }
  }

  lemma NonSpaceStrip(s: string)
    ensures NonSpace(Strip(s)) == NonSpace(s)
  {
    NonSpaceStripLeft(s);
    NonSpaceStripRight(StripLeft(s));
  }

  /** Cutting out a stretch of white space loses no other character. */
  lemma {:induction false} NonSpaceCut(s: string, i: nat, j: nat)
    requires i <= j <= |s| && forall k :: i <= k < j ==> IsSpace(s[k])
    ensures NonSpace(s) == NonSpace(s[..i]) + NonSpace(s[j..])
    decreases i
  {
    if i == 0 {
      SpacesPrefix(s, j);
    } else {
      var t, u := s[1..], s[..i];
      var h := if IsSpace(s[0]) then [] else [s[0]];
      NonSpaceCut(t, i - 1, j - 1);
      assert NonSpace(s) == h + NonSpace(t);
      assert u[0] == s[0] && u[1..] == t[..i - 1];
      assert NonSpace(u) == h + NonSpace(t[..i - 1]);
      assert t[j - 1..] == s[j..];
    }
  }

  lemma {:induction false} SpacesPrefix(s: string, j: nat)
    requires j <= |s| && forall k :: 0 <= k < j ==> IsSpace(s[k])
    ensures NonSpace(s) == NonSpace(s[j..])
    decreases j
  {
    if j > 0 {
      SpacesPrefix(s[1..], j - 1);
      assert s[1..][j - 1..] == s[j..];
    }
  }

  lemma {:induction false} NonSpaceSplitLines(s: string)
    ensures NonSpaceAll(SplitLines(s)) == NonSpace(s)
    decreases |s|
  {
    if s != [] {
      var i := LineEnd(s, 0);
      if i < |s| {
        var next := BreakEnd(s, i);
        NonSpaceSplitLines(s[next..]);
        forall k | i <= k < next
          ensures IsSpace(s[k])
        {
          LineBoundaryIsSpace(s[k]);
        }
        NonSpaceCut(s, i, next);
        assert SplitLines(s) == [s[..i]] + SplitLines(s[next..]);
        assert NonSpaceAll([s[..i]] + SplitLines(s[next..])) ==
          NonSpace(s[..i]) + NonSpaceAll(SplitLines(s[next..]));
      } else {
        assert SplitLines(s) == [s];
        assert NonSpaceAll([s]) == NonSpace(s) + NonSpaceAll([]);
      }
    }
  }

  lemma {:induction false} NonSpaceSplitOnDoubleSpace(s: string)
    ensures NonSpaceAll(SplitOnDoubleSpace(s)) == NonSpace(s)
    decreases |s|
  {
    var i := NextDoubleSpace(s, 0);
    if i < |s| {
      NonSpaceSplitOnDoubleSpace(s[i + 2..]);
      NonSpaceCut(s, i, i + 2);
    } else {
      assert NonSpaceAll([s]) == NonSpace(s) + NonSpaceAll([]);
    }
  }

  lemma {:induction false} NonSpacePhraseChunks(phrases: seq<string>)
    ensures NonSpaceAll(PhraseChunks(phrases)) == NonSpaceAll(phrases)
  {
    if phrases != [] {
      var c := Strip(phrases[0]);
      NonSpaceStrip(phrases[0]);
      NonSpacePhraseChunks(phrases[1..]);
      NonSpaceAllConcat(if c == [] then [] else [c], PhraseChunks(phrases[1..]));
    }
  }

  lemma {:induction false} NonSpaceChunks(lines: seq<string>)
    ensures NonSpaceAll(Chunks(lines)) == NonSpaceAll(lines)
  {
    if lines != [] {
      var phrases := SplitOnDoubleSpace(Strip(lines[0]));
      NonSpaceChunks(lines[1..]);
      NonSpaceAllConcat(PhraseChunks(phrases), Chunks(lines[1..]));
      NonSpacePhraseChunks(phrases);
      NonSpaceSplitOnDoubleSpace(Strip(lines[0]));
      NonSpaceStrip(lines[0]);
    }
  }

  lemma {:induction false} NonSpaceJoin(xs: seq<string>)
    ensures NonSpace(Join(xs)) == NonSpaceAll(xs)
  {
    if |xs| == 1 {
      assert NonSpaceAll(xs) == NonSpace(xs[0]) + NonSpaceAll([]);
    } else if |xs| >= 2 {
      NonSpaceJoin(xs[1..]);
      NonSpaceConcat(xs[0] + " ", Join(xs[1..]));
      NonSpaceConcat(xs[0], " ");
    }
  }

  // ---------------------------------------------------------------------
  // What the normalised text is
  // ---------------------------------------------------------------------

  /** The normalised text holds no line break and no two spaces in a row,
      neither starts nor ends with white space, and keeps every character of
      the page text that is not white space, in order. */
  lemma NormaliseTextSpec(text: string)
    ensures var r := NormaliseText(text);
            NoLineBoundary(r) && NoDoubleSpace(r) && Trimmed(r) &&
            NonSpace(r) == NonSpace(text)
  {
    var lines := SplitLines(text);
    SplitLinesHaveNoBoundary(text);
    ChunksShape(lines);
    JoinShape(Chunks(lines));
    NonSpaceJoin(Chunks(lines));
    NonSpaceChunks(lines);
    NonSpaceSplitLines(text);
  }

  /** Only an empty or all-white-space page text normalises to nothing. */
  lemma NormaliseTextEmpty(text: string)
    ensures NormaliseText(text) == "" <==> forall i :: 0 <= i < |text| ==> IsSpace(text[i])
  {
    var r := NormaliseText(text);
    NormaliseTextSpec(text);
    NonSpaceOfSpaces(text);
    NonSpaceOfSpaces(r);
    if r != "" {
      assert !IsSpace(r[0]);
    }
  }
}
