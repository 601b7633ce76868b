/** The five regular expressions of `extract_words_advanced`, each written
    out as the scanner Python's backtracking matcher amounts to for it, and
    `re.findall` over them. A matcher returns the end of the match that
    starts at a given position, taking the alternatives in the order the
    greedy quantifiers try them. */
module Scan {
  import opened Chars

  datatype Option<T> = None | Some(value: T)

  datatype CharClass =
    | Alnum          // [a-zA-Z0-9]
    | Lowercase      // [a-z]
    | Word           // \w
    | SpecialChar    // the bracket class of the password-like pattern
    | Space          // \s
    | NotSpace
    | Letter
    | LetterOrSpace
    | WordOrSpecial
    | NotUpper       // anything but [A-Z]

  predicate InClass(c: char, cls: CharClass) {
    match cls
    case Alnum => IsAlnum(c)
    case Lowercase => IsAsciiLower(c)
    case Word => IsWordChar(c)
    case SpecialChar => IsSpecial(c)
    case Space => IsSpace(c)
    case NotSpace => !IsSpace(c)
    case Letter => IsAsciiLetter(c)
    case LetterOrSpace => IsAsciiLetter(c) || IsSpace(c)
    case WordOrSpecial => IsWordChar(c) || IsSpecial(c)
    case NotUpper => !IsAsciiUpper(c)
  }

  predicate AllIn(s: string, i: nat, j: nat, cls: CharClass)
    requires i <= j <= |s|
  {
    forall k :: i <= k < j ==> InClass(s[k], cls)
  }

  predicate All(s: string, cls: CharClass) {
    forall k :: 0 <= k < |s| ==> InClass(s[k], cls)
  }

  lemma AllInSlice(s: string, i: nat, j: nat, cls: CharClass)
    requires i <= j <= |s| && AllIn(s, i, j, cls)
    ensures All(s[i..j], cls)
  {
    assert forall k :: 0 <= k < j - i ==> s[i..j][k] == s[i + k];
  }

  /** The end of the longest run of `cls` characters that starts at `i`. */
  function RunEnd(s: string, i: nat, cls: CharClass): (r: nat)
    requires i <= |s|
    ensures i <= r <= |s| && AllIn(s, i, r, cls)
    ensures r < |s| ==> !InClass(s[r], cls)
    decreases |s| - i
  {
    if i < |s| && InClass(s[i], cls) then RunEnd(s, i + 1, cls) else i
  }

  lemma RunEndIs(s: string, i: nat, j: nat, cls: CharClass)
    requires i <= j <= |s| && AllIn(s, i, j, cls)
    requires j < |s| ==> !InClass(s[j], cls)
    ensures RunEnd(s, i, cls) == j
  {
  }

  /** `\b` with `\w` read as letters, digits and the underscore. */
  predicate Boundary(s: string, i: nat)
    requires i <= |s|
  {
    (i > 0 && IsWordChar(s[i - 1])) != (i < |s| && IsWordChar(s[i]))
  }

  datatype Pattern =
    | Basic(minLen: nat)   // \b[a-zA-Z0-9]{minLen,}\b
    | Camel                // [a-z]+[A-Z][a-z]+
    | CamelPart            // [A-Z]?[a-z]+
    | Special              // \b\w+[special]+\w*\b
    | Title                // \b[A-Z][a-z]+(?:\s+[A-Z][a-z]+)*\b

  // ---------------------------------------------------------------------
  // \b[a-zA-Z0-9]{minLen,}\b
  // ---------------------------------------------------------------------

  /** The repetition gives back one character at a time, from `k` down to
      `minLen` characters, until the closing `\b` holds. */
  function BasicTry(s: string, i: nat, k: nat, minLen: nat, allowEmpty: bool): (r: Option<nat>)
    requires i <= k <= |s|
    ensures r.Some? ==> i + minLen <= r.value <= k && Boundary(s, r.value)
    ensures r.Some? && r.value == i ==> allowEmpty
    decreases k
  {
    if k < i + minLen then None
    else if Boundary(s, k) && (k > i || allowEmpty) then Some(k)
    else if k == i then None
    else BasicTry(s, i, k - 1, minLen, allowEmpty)
  }

  function BasicAt(s: string, i: nat, minLen: nat, allowEmpty: bool): (r: Option<nat>)
    requires i <= |s|
    ensures r.Some? ==> i + minLen <= r.value <= |s| && AllIn(s, i, r.value, Alnum)
    ensures r.Some? && r.value == i ==> allowEmpty
  {
    if Boundary(s, i) then BasicTry(s, i, RunEnd(s, i, Alnum), minLen, allowEmpty) else None
  }

  // ---------------------------------------------------------------------
  // [a-z]+[A-Z][a-z]+  and  [A-Z]?[a-z]+
  // ---------------------------------------------------------------------

  /** Giving back lower-case letters of the first run never helps, as none
      of them is an upper-case letter, so only the longest run is tried. */
  function CamelAt(s: string, i: nat): (r: Option<nat>)
    requires i <= |s|
  {
    var a := RunEnd(s, i, Lowercase);
    if a > i && a < |s| && IsAsciiUpper(s[a]) then
      var c := RunEnd(s, a + 1, Lowercase);
      if c > a + 1 then Some(c) else None
    else None
  }

  /** The optional capital is taken when a lower-case letter follows it;
      otherwise it is given back and `[a-z]+` must start at `i`. */
  function CamelPartAt(s: string, i: nat): (r: Option<nat>)
    requires i <= |s|
  {
    if i < |s| && IsAsciiUpper(s[i]) && RunEnd(s, i + 1, Lowercase) > i + 1 then
      Some(RunEnd(s, i + 1, Lowercase))
    else if RunEnd(s, i, Lowercase) > i then Some(RunEnd(s, i, Lowercase))
    else None
  }

  // ---------------------------------------------------------------------
  // \b\w+[special]+\w*\b
  // ---------------------------------------------------------------------

  /** `\w*` gives back from `k` down to `from` until `\b` holds. */
  function SpecialTail(s: string, from: nat, k: nat): (r: Option<nat>)
    requires from <= k <= |s|
    ensures r.Some? ==> from <= r.value <= k
    decreases k
  {
    if Boundary(s, k) then Some(k)
    else if k == from then None
    else SpecialTail(s, from, k - 1)
  }

  /** `[special]+` started at `w` gives back from `k` down to one character. */
  function SpecialRun(s: string, w: nat, k: nat): (r: Option<nat>)
    requires w <= k <= |s|
    requires AllIn(s, w, k, SpecialChar)
    ensures r.Some? ==> w < k && w < r.value <= |s| && AllIn(s, w + 1, r.value, WordOrSpecial)
    decreases k
  {
    if k <= w then None
    else
      var e := RunEnd(s, k, Word);
      match SpecialTail(s, k, e)
      case Some(t) => Some(t)
      case None => SpecialRun(s, w, k - 1)
  }

  /** `\w+` started at `i` gives back from `w` down to one character. */
  function SpecialWord(s: string, i: nat, w: nat): (r: Option<nat>)
    requires i <= w <= |s|
    requires AllIn(s, i, w, Word)
    ensures r.Some? ==> i < r.value <= |s| && AllIn(s, i, r.value, WordOrSpecial)
    ensures r.Some? ==> exists m :: i < m < r.value && IsSpecial(s[m])
    decreases w
  {
    if w <= i then None
    else
      var b := RunEnd(s, w, SpecialChar);
      match SpecialRun(s, w, b)
      case Some(t) => assert IsSpecial(s[w]); Some(t)
      case None => SpecialWord(s, i, w - 1)
  }

  function SpecialAt(s: string, i: nat): (r: Option<nat>)
    requires i <= |s|
    ensures r.Some? ==> i + 2 <= r.value <= |s| && AllIn(s, i, r.value, WordOrSpecial)
    ensures r.Some? ==> IsWordChar(s[i]) && exists m :: i < m < r.value && IsSpecial(s[m])
  {
    if Boundary(s, i) && i < |s| && IsWordChar(s[i]) then SpecialWord(s, i, RunEnd(s, i, Word))
    else None
  }

  // ---------------------------------------------------------------------
  // \b[A-Z][a-z]+(?:\s+[A-Z][a-z]+)*\b
  // ---------------------------------------------------------------------

  /** One more round of the group from `e`: all white space, a capital and
      all the lower-case letters after it. Giving back white space or
      letters never lets the round or the closing `\b` succeed, so the
      longest runs are the only ones tried. */
  function TitleStep(s: string, e: nat): (r: Option<nat>)
    requires e <= |s|
    ensures r.Some? ==> e < r.value <= |s| && AllIn(s, e, r.value, LetterOrSpace)
  {
    var b := RunEnd(s, e, Space);
    if b > e && b < |s| && IsAsciiUpper(s[b]) then
      var c := RunEnd(s, b + 1, Lowercase);
      if c > b + 1 then Some(c) else None
    else None
  }

  /** The group repeats as often as it can; then rounds are given back one
      by one until the closing `\b` holds. */
  function TitleFrom(s: string, e: nat): (r: Option<nat>)
    requires e <= |s|
    ensures r.Some? ==> e <= r.value <= |s| && AllIn(s, e, r.value, LetterOrSpace)
    decreases |s| - e
  {
    var more := match TitleStep(s, e)
      case Some(e2) => TitleFrom(s, e2)
      case None => None;
    if more.Some? then more
    else if Boundary(s, e) then Some(e)
    else None
  }

  function TitleAt(s: string, i: nat): (r: Option<nat>)
    requires i <= |s|
    ensures r.Some? ==> i + 2 <= r.value <= |s| && IsAsciiUpper(s[i])
    ensures r.Some? ==> AllIn(s, i, r.value, LetterOrSpace)
  {
    if Boundary(s, i) && i < |s| && IsAsciiUpper(s[i]) then
      var a := RunEnd(s, i + 1, Lowercase);
      if a > i + 1 then TitleFrom(s, a) else None
    else None
  }

  // ---------------------------------------------------------------------
  // re.findall
  // ---------------------------------------------------------------------

  /** The end of the match of `p` that starts at `i`; an empty match only
      when `allowEmpty`. */
  function MatchAt(p: Pattern, s: string, i: nat, allowEmpty: bool): (r: Option<nat>)
    requires i <= |s|
    ensures r.Some? ==> i <= r.value <= |s|
    ensures r.Some? && r.value == i ==> allowEmpty
  {
    match p
    case Basic(minLen) => BasicAt(s, i, minLen, allowEmpty)
    case Camel => CamelAt(s, i)
    case CamelPart => CamelPartAt(s, i)
    case Special => SpecialAt(s, i)
    case Title => TitleAt(s, i)
  }

  /** `re.findall(p, s[i..])`: matches are taken from the left without
      overlapping; after an empty match the next match may start at the
      same place only if it is not empty. */
  function FindAll(p: Pattern, s: string, i: nat, mustAdvance: bool): (ms: seq<string>)
    requires i <= |s|
    decreases |s| - i, if mustAdvance then 0 else 1
  {
    match MatchAt(p, s, i, !mustAdvance)
    case Some(e) =>
      [s[i..e]] + (if e == i then FindAll(p, s, i, true) else FindAll(p, s, e, false))
    case None =>
      if i == |s| then [] else FindAll(p, s, i + 1, false)
  }

  function FindAllOf(p: Pattern, s: string): seq<string> {
    FindAll(p, s, 0, false)
  }

  // ---------------------------------------------------------------------
  // What each pattern's matches look like
  // ---------------------------------------------------------------------

  predicate IsCamel(m: string) {
    exists j :: 0 < j < |m| - 1 && AllIn(m, 0, j, Lowercase) && IsAsciiUpper(m[j]) &&
      AllIn(m, j + 1, |m|, Lowercase)
  }

  predicate MatchShape(p: Pattern, m: string) {
    match p
    case Basic(minLen) => |m| >= minLen && All(m, Alnum)
    case Camel => IsCamel(m)
    case CamelPart => |m| >= 1 && All(m, Letter)
    case Special =>
      |m| >= 2 && IsWordChar(m[0]) && All(m, WordOrSpecial) &&
      exists k :: 0 <= k < |m| && IsSpecial(m[k])
    case Title => |m| >= 2 && IsAsciiUpper(m[0]) && All(m, LetterOrSpace)
  }

  lemma CamelAtShape(s: string, i: nat)
    requires i <= |s| && CamelAt(s, i).Some?
    ensures IsCamel(s[i..CamelAt(s, i).value])
  {
    var e := CamelAt(s, i).value;
    var m := s[i..e];
    var a := RunEnd(s, i, Lowercase);
    assert forall k :: 0 <= k < |m| ==> m[k] == s[i + k];
    assert IsAsciiUpper(m[a - i]);
    assert AllIn(m, 0, a - i, Lowercase) && AllIn(m, a - i + 1, |m|, Lowercase);
  }

  lemma SpecialAtShape(s: string, i: nat)
    requires i <= |s| && SpecialAt(s, i).Some?
    ensures MatchShape(Special, s[i..SpecialAt(s, i).value])
  {
    var e := SpecialAt(s, i).value;
    var m := s[i..e];
    AllInSlice(s, i, e, WordOrSpecial);
    var k :| i < k < e && IsSpecial(s[k]);
    assert IsSpecial(m[k - i]);
  }

  lemma MatchAtShape(p: Pattern, s: string, i: nat, allowEmpty: bool)
    requires i <= |s| && MatchAt(p, s, i, allowEmpty).Some?
    ensures MatchShape(p, s[i..MatchAt(p, s, i, allowEmpty).value])
  {
    var e := MatchAt(p, s, i, allowEmpty).value;
    match p
    case Basic(minLen) =>
      AllInSlice(s, i, e, Alnum);
    case Camel =>
      CamelAtShape(s, i);
    case CamelPart =>
      AllInSlice(s, i, e, Letter);
    case Special =>
      SpecialAtShape(s, i);
    case Title =>
      AllInSlice(s, i, e, LetterOrSpace);
  }

  lemma {:induction false} FindAllShape(p: Pattern, s: string, i: nat, mustAdvance: bool)
    requires i <= |s|
    ensures forall m <- FindAll(p, s, i, mustAdvance) :: MatchShape(p, m)
    decreases |s| - i, if mustAdvance then 0 else 1
  {
    match MatchAt(p, s, i, !mustAdvance)
    case Some(e) =>
      MatchAtShape(p, s, i, !mustAdvance);
      if e == i {
        FindAllShape(p, s, i, true);
      } else {
        FindAllShape(p, s, e, false);
      }
    case None =>
      if i < |s| {
        FindAllShape(p, s, i + 1, false);
      }
  }

  /** A match is a piece of the text, so it keeps any property that every
      character of the text has. */
  lemma {:induction false} FindAllWithin(p: Pattern, s: string, i: nat, mustAdvance: bool, cls: CharClass)
    requires i <= |s| && All(s, cls)
    ensures forall m <- FindAll(p, s, i, mustAdvance) :: All(m, cls)
    decreases |s| - i, if mustAdvance then 0 else 1
  {
    var r := MatchAt(p, s, i, !mustAdvance);
    if r.Some? {
      var e := r.value;
      AllInSlice(s, i, e, cls);
      var rest := if e == i then FindAll(p, s, i, true) else FindAll(p, s, e, false);
      if e == i {
        FindAllWithin(p, s, i, true, cls);
      } else {
        FindAllWithin(p, s, e, false, cls);
      }
      assert FindAll(p, s, i, mustAdvance) == [s[i..e]] + rest;
    } else if i < |s| {
      FindAllWithin(p, s, i + 1, false, cls);
    }
  }

  /** Every match of every pattern has that pattern's shape. */
  lemma FindAllOfShape(p: Pattern, s: string)
    ensures forall m <- FindAllOf(p, s) :: MatchShape(p, m)
  {
    FindAllShape(p, s, 0, false);
  }

  // ---------------------------------------------------------------------
  // Splitting a camelCase match
  // ---------------------------------------------------------------------

  /** `[A-Z]?[a-z]+` cuts a camelCase match into its lower-case head and the
      capitalised rest. */
  lemma CamelPartsOf(m: string)
    requires IsCamel(m)
    ensures exists j :: (0 < j < |m| - 1 && FindAllOf(CamelPart, m) == [m[..j], m[j..]] &&
      AllIn(m, 0, j, Lowercase) && IsAsciiUpper(m[j]) && AllIn(m, j + 1, |m|, Lowercase))
  {
    var j :| 0 < j < |m| - 1 && AllIn(m, 0, j, Lowercase) && IsAsciiUpper(m[j]) &&
      AllIn(m, j + 1, |m|, Lowercase);
    RunEndIs(m, 0, j, Lowercase);
    assert CamelPartAt(m, 0) == Some(j);
    RunEndIs(m, j + 1, |m|, Lowercase);
    assert CamelPartAt(m, j) == Some(|m|);
    assert CamelPartAt(m, |m|) == None;
    assert MatchAt(CamelPart, m, j, true) == Some(|m|);
    assert m[j..|m|] == m[j..];
    calc {
      FindAll(CamelPart, m, 0, false);
      [m[..j]] + FindAll(CamelPart, m, j, false);
      [m[..j]] + ([m[j..]] + FindAll(CamelPart, m, |m|, false));
      [m[..j], m[j..]];
    }
  }

  // ---------------------------------------------------------------------
  // str.split()
  // ---------------------------------------------------------------------

  /** `str.split()` with no argument: the maximal runs of non-white-space
      characters. */
  function SplitWs(s: string): (ws: seq<string>)
    decreases |s|
  {
    var i := RunEnd(s, 0, Space);
    if i == |s| then []
    else
      var j := RunEnd(s, i, NotSpace);
      [s[i..j]] + SplitWs(s[j..])
  }

  /** The pieces of a string of letters and white space are letters only. */
  lemma {:induction false} SplitWsLetters(s: string)
    requires All(s, LetterOrSpace)
    ensures forall w <- SplitWs(s) :: |w| >= 1 && All(w, Letter)
    decreases |s|
  {
    var i := RunEnd(s, 0, Space);
    if i < |s| {
      var j := RunEnd(s, i, NotSpace);
      assert forall k :: 0 <= k < j - i ==> s[i..j][k] == s[i + k];
      assert forall k :: 0 <= k < |s| - j ==> s[j..][k] == s[j + k];
      SplitWsLetters(s[j..]);
    }
  }

  // ---------------------------------------------------------------------
  // The basic pattern finds every delimited run
  // ---------------------------------------------------------------------

  /** A maximal run of `[a-zA-Z0-9]` of at least `minLen` characters with a
      non-word character (or the end of the text) on each side is one of
      the matches of the basic pattern. */
  lemma {:induction false} BasicFindsRun(s: string, minLen: nat, p: nat, mustAdvance: bool, i: nat, j: nat)
    requires p <= i < j <= |s| && j - i >= minLen
    requires mustAdvance ==> p < i
    requires AllIn(s, i, j, Alnum)
    requires i == 0 || !IsWordChar(s[i - 1])
    requires j == |s| || !IsWordChar(s[j])
    ensures s[i..j] in FindAll(Basic(minLen), s, p, mustAdvance)
    decreases |s| - p, if mustAdvance then 0 else 1
  {
    var pat := Basic(minLen);
    if p == i {
      RunEndIs(s, i, j, Alnum);
      assert BasicTry(s, i, j, minLen, !mustAdvance) == Some(j);
      assert MatchAt(pat, s, i, !mustAdvance) == Some(j);
    } else {
      match MatchAt(pat, s, p, !mustAdvance)
      case Some(e) =>
        if e == p {
          BasicFindsRun(s, minLen, p, true, i, j);
        } else {
          BasicFindsRun(s, minLen, e, false, i, j);
        }
      case None =>
        BasicFindsRun(s, minLen, p + 1, false, i, j);
    }
  }

  /** A non-empty match at `i` is one of the matches found from `p` on when
      no match that starts between `p` and `i` reaches past `i`. */
  lemma {:induction false} FindAllReaches(pat: Pattern, s: string, p: nat, mustAdvance: bool, i: nat, e: nat)
    requires p <= i < e <= |s|
    requires mustAdvance ==> p < i
    requires MatchAt(pat, s, i, true) == Some(e) && MatchAt(pat, s, i, false) == Some(e)
    requires forall k, ae :: p <= k < i && MatchAt(pat, s, k, ae).Some? ==> MatchAt(pat, s, k, ae).value <= i
    ensures s[i..e] in FindAll(pat, s, p, mustAdvance)
    decreases |s| - p, if mustAdvance then 0 else 1
  {
    if p < i {
      match MatchAt(pat, s, p, !mustAdvance)
      case Some(e') =>
        if e' == p {
          FindAllReaches(pat, s, p, true, i, e);
        } else {
          FindAllReaches(pat, s, e', false, i, e);
        }
      case None =>
        FindAllReaches(pat, s, p + 1, false, i, e);
    }
  }

  /** A password-like token `\w+[special]+\w*` made of a maximal run of word
      characters, a maximal run of the punctuation class and a maximal run of
      word characters, with neither kind of character just before it, is one
      of the matches of the password-like pattern. The characters on either
      side are ASCII, so that Python's Unicode `\w` reads them as the model
      does. */
  lemma SpecialFindsRun(s: string, i: nat, a: nat, b: nat, c: nat)
    requires i < a < b < c <= |s|
    requires i == 0 || !InClass(s[i - 1], WordOrSpecial)
    requires (i == 0 || IsAscii(s[i - 1])) && (c == |s| || IsAscii(s[c]))
    requires AllIn(s, i, a, Word) && !IsWordChar(s[a])
    requires AllIn(s, a, b, SpecialChar) && !IsSpecial(s[b])
    requires AllIn(s, b, c, Word) && (c == |s| || !IsWordChar(s[c]))
    ensures s[i..c] in FindAllOf(Special, s)
  {
    RunEndIs(s, i, a, Word);
    RunEndIs(s, a, b, SpecialChar);
    RunEndIs(s, b, c, Word);
    assert SpecialTail(s, b, c) == Some(c);
    assert SpecialRun(s, a, b) == Some(c);
    assert SpecialWord(s, i, a) == Some(c);
    assert MatchAt(Special, s, i, true) == Some(c);
    forall k, ae | 0 <= k < i && MatchAt(Special, s, k, ae).Some?
      ensures MatchAt(Special, s, k, ae).value <= i
    {
    }
    FindAllReaches(Special, s, 0, false, i, c);
  }

  /** A capitalised word `[A-Z][a-z]+` that ends at a non-word character and
      whose capital is the first one since the last character that is
      neither a letter nor white space (`d` is just after that character)
      starts a Title Case match, and is the first piece of its split. The
      characters on either side are ASCII, as for `SpecialFindsRun`. */
  lemma TitleFindsWord(s: string, d: nat, i: nat, j: nat)
    requires d <= i && i + 1 < j <= |s|
    requires d == 0 || !InClass(s[d - 1], LetterOrSpace)
    requires forall k :: d <= k < i ==> !IsAsciiUpper(s[k])
    requires i == 0 || !IsWordChar(s[i - 1])
    requires (i == 0 || IsAscii(s[i - 1])) && (j == |s| || IsAscii(s[j]))
    requires IsAsciiUpper(s[i]) && AllIn(s, i + 1, j, Lowercase)
    requires j == |s| || !IsWordChar(s[j])
    ensures exists e :: j <= e <= |s| && s[i..e] in FindAllOf(Title, s) && s[i..j] in SplitWs(s[i..e])
  {
    RunEndIs(s, i + 1, j, Lowercase);
    assert Boundary(s, j);
    var e := TitleFrom(s, j).value;
    assert MatchAt(Title, s, i, true) == Some(e);
    TitleNoCrossing(s, d, i);
    FindAllReaches(Title, s, 0, false, i, e);
    assert AllIn(s, i, e, LetterOrSpace);
    FirstPiece(s, i, j, e);
  }

  /** No Title Case match starting before `i` reaches past it when its
      capital is the first one since a character that is neither a letter
      nor white space. */
  lemma TitleNoCrossing(s: string, d: nat, i: nat)
    requires d <= i <= |s|
    requires d == 0 || !InClass(s[d - 1], LetterOrSpace)
    requires forall k :: d <= k < i ==> !IsAsciiUpper(s[k])
    ensures forall k, ae :: 0 <= k < i && MatchAt(Title, s, k, ae).Some? ==> MatchAt(Title, s, k, ae).value <= i
  {
  }

  /** A stretch of letters and white space that starts with a capitalised
      word ended by white space or by its own end splits first into that
      word. */
  lemma FirstPiece(s: string, i: nat, j: nat, e: nat)
    requires i < j <= e <= |s| && AllIn(s, i, e, LetterOrSpace)
    requires IsAsciiUpper(s[i]) && AllIn(s, i + 1, j, Lowercase)
    requires j < e ==> !IsWordChar(s[j])
    ensures s[i..j] in SplitWs(s[i..e])
  {
    var m := s[i..e];
    assert forall k :: 0 <= k < e - i ==> m[k] == s[i + k];
    RunEndIs(m, 0, 0, Space);
    RunEndIs(m, 0, j - i, NotSpace);
    assert SplitWs(m)[0] == m[0..j - i] == s[i..j];
  }

  // ---------------------------------------------------------------------
  // Texts on which a pattern finds nothing, or one run
  // ---------------------------------------------------------------------

  lemma {:induction false} NoSpecialNoMatch(s: string, i: nat, ma: bool)
    requires i <= |s| && forall k :: 0 <= k < |s| ==> !IsSpecial(s[k])
    ensures FindAll(Special, s, i, ma) == []
    decreases |s| - i, if ma then 0 else 1
  {
    assert MatchAt(Special, s, i, !ma).None?;
    if i < |s| {
      NoSpecialNoMatch(s, i + 1, false);
    }
  }

  lemma {:induction false} NoTitleStart(s: string, i: nat, ma: bool)
    requires i <= |s| && All(s, Word) && (|s| > 0 ==> !IsAsciiUpper(s[0]))
    ensures FindAll(Title, s, i, ma) == []
    decreases |s| - i, if ma then 0 else 1
  {
    if 0 < i < |s| {
      assert !Boundary(s, i);
    }
    assert MatchAt(Title, s, i, !ma).None?;
    if i < |s| {
      NoTitleStart(s, i + 1, false);
    }
  }

  lemma {:induction false} NoUpperNoCamel(s: string, i: nat, ma: bool)
    requires i <= |s| && forall k :: i <= k < |s| ==> !IsAsciiUpper(s[k])
    ensures FindAll(Camel, s, i, ma) == []
    decreases |s| - i, if ma then 0 else 1
  {
    assert MatchAt(Camel, s, i, !ma).None?;
    if i < |s| {
      NoUpperNoCamel(s, i + 1, false);
    }
  }

  lemma WholeRun(s: string, minLen: nat)
    requires 0 < minLen <= |s| && All(s, Alnum)
    ensures FindAllOf(Basic(minLen), s) == [s]
  {
    RunEndIs(s, 0, |s|, Alnum);
    assert MatchAt(Basic(minLen), s, 0, true) == Some(|s|);
    assert MatchAt(Basic(minLen), s, |s|, true) == None;
    assert FindAll(Basic(minLen), s, |s|, false) == [];
    assert s[0..|s|] == s;
  }
}
