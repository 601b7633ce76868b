/** `extract_words_advanced`: the set of words one page contributes. */
module Words {
  import opened Chars
  import opened Scan

  /** The lower-cased parts of the camelCase matches that are at least
      `minLen` long. */
  function CamelWords(matches: seq<string>, minLen: nat): set<string> {
    if matches == [] then {}
    else
      (set p | p in FindAllOf(CamelPart, matches[0]) && |p| >= minLen :: Lower(p)) +
      CamelWords(matches[1..], minLen)
  }

  /** The lower-cased white-space-separated words of the Title Case matches
      that are at least `minLen` long. */
  function TitleWords(phrases: seq<string>, minLen: nat): set<string> {
    if phrases == [] then {}
    else
      (set w | w in SplitWs(phrases[0]) && |w| >= minLen :: Lower(w)) +
      TitleWords(phrases[1..], minLen)
  }

  /** The words of a page text, as the union of four strategies: whole
      alphanumeric words of the lower-cased text, the parts of camelCase
      words, password-like words holding punctuation, and the words of
      Title Case phrases. */
  function ExtractWordsAdvanced(text: string, minLen: nat): set<string> {
    (set w | w in FindAllOf(Basic(minLen), Lower(text))) +
    CamelWords(FindAllOf(Camel, text), minLen) +
    (set w | w in FindAllOf(Special, text) :: Lower(w)) +
    TitleWords(FindAllOf(Title, text), minLen)
  }

  /** A word found by the alphanumeric strategies. */
  predicate IsPlainWord(w: string, minLen: nat) {
    |w| >= minLen && All(w, Alnum)
  }

  /** A word found by the password-like strategy. */
  predicate IsPasswordLike(w: string) {
    |w| >= 2 && All(w, WordOrSpecial) && exists k :: 0 <= k < |w| && IsSpecial(w[k])
  }

  lemma LowerCharKeepsClasses(c: char)
    ensures IsAsciiLetter(c) ==> IsAsciiLetter(LowerChar(c))
    ensures IsWordChar(c) ==> IsWordChar(LowerChar(c))
    ensures IsSpecial(c) ==> LowerChar(c) == c
  {
  }

  lemma LowerKeepsClasses(w: string)
    ensures All(Lower(w), NotUpper)
    ensures All(w, Letter) ==> All(Lower(w), Letter)
    ensures All(w, WordOrSpecial) ==> All(Lower(w), WordOrSpecial)
    ensures forall k :: 0 <= k < |w| && IsSpecial(w[k]) ==> IsSpecial(Lower(w)[k])
  {
    forall k | 0 <= k < |w| {
      LowerCharKeepsClasses(w[k]);
    }
  }

  /** Lower-casing the long enough pieces made of letters gives plain words. */
  lemma LoweredPiecesShape(ps: seq<string>, minLen: nat)
    requires forall p <- ps :: All(p, Letter)
    ensures forall w <- (set p | p in ps && |p| >= minLen :: Lower(p)) ::
      IsPlainWord(w, minLen) && All(w, NotUpper)
  {
    forall w <- (set p | p in ps && |p| >= minLen :: Lower(p))
      ensures IsPlainWord(w, minLen) && All(w, NotUpper)
    {
      var p :| p in ps && |p| >= minLen && w == Lower(p);
      LowerKeepsClasses(p);
    }
  }

  lemma {:induction false} CamelWordsShape(matches: seq<string>, minLen: nat)
    ensures forall w <- CamelWords(matches, minLen) :: IsPlainWord(w, minLen) && All(w, NotUpper)
  {
    if matches != [] {
      var ps := FindAllOf(CamelPart, matches[0]);
      FindAllOfShape(CamelPart, matches[0]);
      LoweredPiecesShape(ps, minLen);
      CamelWordsShape(matches[1..], minLen);
    }
  }

  lemma {:induction false} TitleWordsShape(phrases: seq<string>, minLen: nat)
    requires forall ph <- phrases :: All(ph, LetterOrSpace)
    ensures forall w <- TitleWords(phrases, minLen) :: IsPlainWord(w, minLen) && All(w, NotUpper)
  {
    if phrases != [] {
      SplitWsLetters(phrases[0]);
      LoweredPiecesShape(SplitWs(phrases[0]), minLen);
      TitleWordsShape(phrases[1..], minLen);
    }
  }

  lemma NotUpperIsLower(w: string)
    requires All(w, NotUpper)
    ensures Lower(w) == w
  {
    LowerOfNoUpper(w);
  }

  lemma BasicWordsShape(text: string, minLen: nat)
    ensures forall w <- FindAllOf(Basic(minLen), Lower(text)) ::
      IsPlainWord(w, minLen) && All(w, NotUpper)
  {
    LowerKeepsClasses(text);
    FindAllOfShape(Basic(minLen), Lower(text));
    FindAllWithin(Basic(minLen), Lower(text), 0, false, NotUpper);
  }

  lemma SpecialWordsShape(text: string)
    ensures forall w <- (set m | m in FindAllOf(Special, text) :: Lower(m)) ::
      IsPasswordLike(w) && All(w, NotUpper)
  {
    var ms := FindAllOf(Special, text);
    FindAllOfShape(Special, text);
    forall w <- (set m | m in ms :: Lower(m))
      ensures IsPasswordLike(w) && All(w, NotUpper)
    {
      var m :| m in ms && w == Lower(m);
      LowerKeepsClasses(m);
      var k :| 0 <= k < |m| && IsSpecial(m[k]);
      assert IsSpecial(w[k]);
    }
  }

  /** Every extracted word is its own lower-casing, and is either an
      alphanumeric word of at least `minLen` characters or a password-like
      word of word characters and punctuation holding at least one of the
      punctuation characters (these are not held to `minLen`). */
  lemma ExtractedWordsShape(text: string, minLen: nat)
    ensures forall w <- ExtractWordsAdvanced(text, minLen) ::
      Lower(w) == w && (IsPlainWord(w, minLen) || IsPasswordLike(w))
  {
    var basic := set w | w in FindAllOf(Basic(minLen), Lower(text));
    var camel := CamelWords(FindAllOf(Camel, text), minLen);
    var special := set m | m in FindAllOf(Special, text) :: Lower(m);
    var title := TitleWords(FindAllOf(Title, text), minLen);
    assert ExtractWordsAdvanced(text, minLen) == basic + camel + special + title;
    BasicWordsShape(text, minLen);
    CamelWordsShape(FindAllOf(Camel, text), minLen);
    SpecialWordsShape(text);
    FindAllOfShape(Title, text);
    TitleWordsShape(FindAllOf(Title, text), minLen);
    assert forall w <- basic + camel + special + title ::
      All(w, NotUpper) && (IsPlainWord(w, minLen) || IsPasswordLike(w));
    forall w <- basic + camel + special + title
      ensures Lower(w) == w
    {
      NotUpperIsLower(w);
    }
  }

  /** Every maximal alphanumeric run of at least `minLen` characters with a
      non-word character or the end of the text on each side is found, in
      lower case. */
  lemma PlainRunFound(text: string, minLen: nat, i: nat, j: nat)
    requires i < j <= |text| && j - i >= minLen
    requires AllIn(text, i, j, Alnum)
    requires i == 0 || !IsWordChar(text[i - 1])
    requires j == |text| || !IsWordChar(text[j])
    ensures Lower(text[i..j]) in ExtractWordsAdvanced(text, minLen)
  {
    var lowered := Lower(text);
    LowerSlice(text, i, j);
    BasicFindsRun(lowered, minLen, 0, false, i, j);
  }

  lemma {:induction false} CamelWordsHas(matches: seq<string>, minLen: nat, m: string, p: string)
    requires m in matches && p in FindAllOf(CamelPart, m) && |p| >= minLen
    ensures Lower(p) in CamelWords(matches, minLen)
  {
    if matches[0] != m {
      CamelWordsHas(matches[1..], minLen, m, p);
    }
  }

  lemma CamelWordsIncluded(text: string, minLen: nat)
    ensures CamelWords(FindAllOf(Camel, text), minLen) <= ExtractWordsAdvanced(text, minLen)
  {
  }

  lemma CamelHeadFound(text: string, minLen: nat, m: string, j: nat)
    requires m in FindAllOf(Camel, text)
    requires 0 < j < |m| && m[..j] in FindAllOf(CamelPart, m)
    requires AllIn(m, 0, j, Lowercase) && j >= minLen
    ensures m[..j] in ExtractWordsAdvanced(text, minLen)
  {
    var head := m[..j];
    CamelWordsIncluded(text, minLen);
    CamelWordsHas(FindAllOf(Camel, text), minLen, m, head);
    assert forall k :: 0 <= k < j ==> head[k] == m[k];
    LowerOfNoUpper(head);
  }

  lemma CamelTailFound(text: string, minLen: nat, m: string, j: nat)
    requires m in FindAllOf(Camel, text)
    requires 0 < j < |m| && m[j..] in FindAllOf(CamelPart, m)
    requires |m| - j >= minLen
    ensures Lower(m[j..]) in ExtractWordsAdvanced(text, minLen)
  {
    CamelWordsIncluded(text, minLen);
    CamelWordsHas(FindAllOf(Camel, text), minLen, m, m[j..]);
  }

  /** Each camelCase match `xxYyy` contributes its lower-case head `xx` and
      its capitalised tail `Yyy`, lower-cased, when they are long enough. */
  lemma CamelPartsFound(text: string, minLen: nat, m: string)
    requires m in FindAllOf(Camel, text)
    ensures exists j :: (0 < j < |m| - 1 && IsAsciiUpper(m[j]) &&
      AllIn(m, 0, j, Lowercase) && AllIn(m, j + 1, |m|, Lowercase) &&
      (j >= minLen ==> m[..j] in ExtractWordsAdvanced(text, minLen)) &&
      (|m| - j >= minLen ==> Lower(m[j..]) in ExtractWordsAdvanced(text, minLen)))
  {
    FindAllOfShape(Camel, text);
    CamelPartsOf(m);
    var j :| 0 < j < |m| - 1 && FindAllOf(CamelPart, m) == [m[..j], m[j..]] &&
      AllIn(m, 0, j, Lowercase) && IsAsciiUpper(m[j]) && AllIn(m, j + 1, |m|, Lowercase);
    assert m[..j] in FindAllOf(CamelPart, m) && m[j..] in FindAllOf(CamelPart, m);
    if j >= minLen {
      CamelHeadFound(text, minLen, m, j);
    }
    if |m| - j >= minLen {
      CamelTailFound(text, minLen, m, j);
    }
  }

  /** A password-like token of word characters, punctuation and word
      characters, each run maximal, with a character of neither kind (or
      the start of the text) before it and a non-word character (or the end)
      after it, is found in lower case whatever its length. Both neighbours
      are ASCII, where Python's Unicode `\w` and `\b` agree with the model. */
  lemma SpecialWordFound(text: string, minLen: nat, i: nat, a: nat, b: nat, c: nat)
    requires i < a < b < c <= |text|
    requires i == 0 || !(IsWordChar(text[i - 1]) || IsSpecial(text[i - 1]))
    requires (i == 0 || IsAscii(text[i - 1])) && (c == |text| || IsAscii(text[c]))
    requires AllIn(text, i, a, Word) && !IsWordChar(text[a])
    requires AllIn(text, a, b, SpecialChar) && !IsSpecial(text[b])
    requires AllIn(text, b, c, Word) && (c == |text| || !IsWordChar(text[c]))
    ensures Lower(text[i..c]) in ExtractWordsAdvanced(text, minLen)
  {
    SpecialFindsRun(text, i, a, b, c);
  }

  lemma {:induction false} TitleWordsHas(phrases: seq<string>, minLen: nat, m: string, w: string)
    requires m in phrases && w in SplitWs(m) && |w| >= minLen
    ensures Lower(w) in TitleWords(phrases, minLen)
  {
    if phrases[0] != m {
      TitleWordsHas(phrases[1..], minLen, m, w);
    }
  }

  /** A capitalised word `Xxx` of at least `minLen` letters that ends at a
      non-word character, and whose capital is the first one since the
      start of the text or since the last character that is neither a
      letter nor white space (`d` is just after it), is found in lower case
      as a word of a Title Case phrase. Both neighbours are ASCII, as for
      `SpecialWordFound`. */
  lemma TitleWordFound(text: string, minLen: nat, d: nat, i: nat, j: nat)
    requires d <= i && i + 1 < j <= |text| && j - i >= minLen
    requires d == 0 || !(IsAsciiLetter(text[d - 1]) || IsSpace(text[d - 1]))
    requires forall k :: d <= k < i ==> !IsAsciiUpper(text[k])
    requires i == 0 || !IsWordChar(text[i - 1])
    requires (i == 0 || IsAscii(text[i - 1])) && (j == |text| || IsAscii(text[j]))
    requires IsAsciiUpper(text[i]) && AllIn(text, i + 1, j, Lowercase)
    requires j == |text| || !IsWordChar(text[j])
    ensures Lower(text[i..j]) in ExtractWordsAdvanced(text, minLen)
  {
    TitleFindsWord(text, d, i, j);
    var e :| j <= e <= |text| && text[i..e] in FindAllOf(Title, text) && text[i..j] in SplitWs(text[i..e]);
    TitleWordsHas(FindAllOf(Title, text), minLen, text[i..e], text[i..j]);
  }

  // ---------------------------------------------------------------------
  // A worked example
  // ---------------------------------------------------------------------

  lemma ExtractFromParts(t: string, minLen: nat, basic: seq<string>, camel: seq<string>,
                         special: seq<string>, title: seq<string>)
    requires FindAllOf(Basic(minLen), Lower(t)) == basic && FindAllOf(Camel, t) == camel
    requires FindAllOf(Special, t) == special && FindAllOf(Title, t) == title
    ensures ExtractWordsAdvanced(t, minLen) ==
      (set w | w in basic) + CamelWords(camel, minLen) + (set m | m in special :: Lower(m)) +
      TitleWords(title, minLen)
  {
  }

  lemma GetUserNameLower(t: string)
    requires t == "getUserName"
    ensures Lower(t) == "getusername"
  {
  }

  lemma GetUserNameCamel(t: string)
    requires t == "getUserName"
    ensures FindAllOf(Camel, t) == ["getUser"]
  {
    assert CamelAt(t, 0) == Some(7) by {
      RunEndIs(t, 0, 3, Lowercase);
      RunEndIs(t, 4, 7, Lowercase);
    }
    assert CamelAt(t, 7) == None;
    NoUpperNoCamel(t, 8, false);
    assert FindAll(Camel, t, 7, false) == [];
    assert FindAll(Camel, t, 0, false) == [t[0..7]];
    assert t[0..7] == "getUser";
  }

  lemma GetUserParts(m: string)
    requires m == "getUser"
    ensures FindAllOf(CamelPart, m) == ["get", "User"]
  {
    assert CamelPartAt(m, 0) == Some(3) by {
      RunEndIs(m, 0, 3, Lowercase);
    }
    assert CamelPartAt(m, 3) == Some(7) by {
      RunEndIs(m, 4, 7, Lowercase);
    }
    assert FindAll(CamelPart, m, 7, false) == [];
    assert FindAll(CamelPart, m, 3, false) == [m[3..7]];
    assert FindAll(CamelPart, m, 0, false) == [m[0..3], m[3..7]];
    assert m[0..3] == "get" && m[3..7] == "User";
  }

  lemma LowerGetUser(a: string, b: string)
    requires a == "get" && b == "User"
    ensures Lower(a) == "get" && Lower(b) == "user"
  {
  }

  lemma GetUserWords(ms: seq<string>)
    requires ms == ["getUser"]
    ensures CamelWords(ms, 3) == {"get", "user"}
  {
    GetUserParts(ms[0]);
    LowerGetUser("get", "User");
    assert CamelWords(ms[1..], 3) == {};
  }

  lemma GetUserNameBasic(t: string)
    requires t == "getUserName"
    ensures FindAllOf(Basic(3), Lower(t)) == ["getusername"]
  {
    GetUserNameLower(t);
    WholeRun(Lower(t), 3);
  }

  lemma GetUserNameSpecial(t: string)
    requires t == "getUserName"
    ensures FindAllOf(Special, t) == []
  {
    NoSpecialNoMatch(t, 0, false);
  }

  lemma GetUserNameTitle(t: string)
    requires t == "getUserName"
    ensures FindAllOf(Title, t) == []
  {
    NoTitleStart(t, 0, false);
  }

  lemma GetUserNameFromParts(t: string)
    requires FindAllOf(Basic(3), Lower(t)) == ["getusername"] && FindAllOf(Camel, t) == ["getUser"]
    requires FindAllOf(Special, t) == [] && FindAllOf(Title, t) == []
    ensures ExtractWordsAdvanced(t, 3) == {"getusername", "get", "user"}
  {
    ExtractFromParts(t, 3, ["getusername"], ["getUser"], [], []);
    GetUserWords(["getUser"]);
    var special: seq<string> := [];
    assert (set m | m in special :: Lower(m)) == {};
    assert TitleWords([], 3) == {};
    assert (set w | w in ["getusername"]) == {"getusername"};
  }

  /** `getUserName` gives the whole word and the two parts of its only
      camelCase match, `getUser`; `Name` is part of no camelCase match and so
      is not a word of its own. */
  lemma GetUserName(t: string)
    requires t == "getUserName"
    ensures ExtractWordsAdvanced(t, 3) == {"getusername", "get", "user"}
  {
    GetUserNameBasic(t);
    GetUserNameSpecial(t);
    GetUserNameTitle(t);
    GetUserNameCamel(t);
    GetUserNameFromParts(t);
  }
}
