/**
 * The camel-style converters of string-utils.ts: `deCap`, `camelCase` and
 * `pascalCase`. `snakeCase` and `kebabCase` are in DelimiterCase, the
 * property mappers in PropertyKeys.
 *
 * Every converter starts from `str.split(wordSeparators)` (`Split`). The
 * global regular-expression rewrites are left-to-right scans: a maximal run
 * of `capitals`, a maximal run of four or more acronym capitals, or a
 * capital followed by a small letter, matched without overlap.
 */
module CaseConversion {
  import opened Chars
  import opened Text
  import opened StringUtils

  lemma SameUpToCaseOfLowerAll(s: string)
    ensures SameUpToCase(LowerAll(s), s)
  {
    forall i | 0 <= i < |s|
      ensures Fold(LowerAll(s)[i]) == Fold(s[i])
    {
      FoldOfCaseMapping(s[i]);
    }
  }

  /**
   * What `deCap(match, endOfWord)` returns: the first letter upper-cased, the
   * inner letters lower-cased, and the last letter lower-cased only at the end
   * of the word.
   */
  function DeCapped(run: string, endOfWord: bool): (r: string)
    requires |run| >= 2
    ensures |r| == |run|
    ensures SameUpToCase(r, run)
  {
    var last := run[|run| - 1];
    var r := [Upper(run[0])] + LowerAll(run[1..|run| - 1]) + [if endOfWord then Lower(last) else last];
    assert SameUpToCase(r, run) by {
      FoldOfCaseMapping(run[0]);
      FoldOfCaseMapping(last);
      SameUpToCaseOfLowerAll(run[1..|run| - 1]);
      assert forall i :: 0 < i < |run| - 1 ==> r[i] == LowerAll(run[1..|run| - 1])[i - 1];
    }
    r
  }

  /**
   * `deCap`: split the run into characters, shift off the first and pop off
   * the last. The run has at least the two characters that shift and pop take.
   */
  method DeCap(run: string, endOfWord: bool) returns (r: string)
    requires |run| >= 2
    ensures r == DeCapped(run, endOfWord)
    ensures r[0] == Upper(run[0])
    ensures forall i :: 0 < i < |run| - 1 ==> r[i] == Lower(run[i])
    ensures r[|r| - 1] == if endOfWord then Lower(run[|run| - 1]) else run[|run| - 1]
  {
    var arr := run;
    var first := Upper(arr[0]);
    arr := arr[1..];
    var last := arr[|arr| - 1];
    if endOfWord {
      last := Lower(last);
    }
    arr := arr[..|arr| - 1];
    assert arr == run[1..|run| - 1];
    r := [first] + LowerAll(arr) + [last];
  }

  /**
   * `word.replace(fourOrMoreConsecutiveCapsRegEx, …)`: every maximal run of
   * four or more acronym capitals is rewritten by `deCap`, with `endOfWord`
   * when the run reaches the end of the word; everything else is kept.
   */
  function DeCapRuns(w: string): (r: string)
    ensures |r| == |w|
    decreases |w|
  {
    if |w| == 0 then []
    else
      var n := Span(w, IsAcronymCapital);
      if n == 0 then [w[0]] + DeCapRuns(w[1..])
      else if n >= 4 then DeCapped(w[..n], n == |w|) + DeCapRuns(w[n..])
      else w[..n] + DeCapRuns(w[n..])
  }

  /** The rewrite changes the case of letters only, and never the first letter of the word. */
  lemma {:induction false} DeCapRunsSpec(w: string)
    ensures SameUpToCase(DeCapRuns(w), w)
    ensures |w| > 0 ==> DeCapRuns(w)[0] == w[0]
    decreases |w|
  {
    if |w| > 0 {
      var n := Span(w, IsAcronymCapital);
      var k := if n == 0 then 1 else n;
      var head := if n == 0 then [w[0]] else if n >= 4 then DeCapped(w[..n], n == |w|) else w[..n];
      assert DeCapRuns(w) == head + DeCapRuns(w[k..]);
      assert SameUpToCase(head, w[..k]);
      LowerRemovesAsciiUpper(w[0]);
      assert head[0] == w[0];
      DeCapRunsSpec(w[k..]);
      SameUpToCaseAt(head, DeCapRuns(w[k..]), w, k);
    }
  }

  lemma SameUpToCaseAt(x: string, y: string, w: string, k: nat)
    requires k <= |w| && SameUpToCase(x, w[..k]) && SameUpToCase(y, w[k..])
    ensures SameUpToCase(x + y, w)
  {
    SameUpToCaseOfAppend(x, y, w[..k], w[k..]);
    assert w[..k] + w[k..] == w;
  }

  /** A stretch without acronym capitals is kept and the scan goes on after it. */
  lemma {:induction false} DeCapRunsOfPlain(a: string, t: string)
    requires forall i :: 0 <= i < |a| ==> !IsAcronymCapital(a[i])
    ensures DeCapRuns(a + t) == a + DeCapRuns(t)
  {
    if |a| > 0 {
      var s := a + t;
      assert s[0] == a[0] && s[1..] == a[1..] + t;
      DeCapRunsStep(s);
      DeCapRunsOfPlain(a[1..], t);
      assert a == [a[0]] + a[1..];
    } else {
      assert a + t == t;
    }
  }

  lemma DeCapRunsStep(w: string)
    requires |w| > 0 && !IsAcronymCapital(w[0])
    ensures DeCapRuns(w) == [w[0]] + DeCapRuns(w[1..])
  {
    assert Span(w, IsAcronymCapital) == 0;
  }

  /**
   * A maximal run of at least four acronym capitals is rewritten by `deCap`,
   * with `endOfWord` exactly when nothing follows it.
   */
  lemma DeCapRunsOfRun(run: string, t: string)
    requires |run| >= 4 && forall i :: 0 <= i < |run| ==> IsAcronymCapital(run[i])
    requires |t| == 0 || !IsAcronymCapital(t[0])
    ensures DeCapRuns(run + t) == DeCapped(run, |t| == 0) + DeCapRuns(t)
  {
    var s := run + t;
    SpanOfRun(run, t);
    assert s[..|run|] == run && s[|run|..] == t;
  }

  /** A run of fewer than four acronym capitals is kept. */
  lemma DeCapRunsOfShortRun(run: string, t: string)
    requires 0 < |run| < 4 && forall i :: 0 <= i < |run| ==> IsAcronymCapital(run[i])
    requires |t| == 0 || !IsAcronymCapital(t[0])
    ensures DeCapRuns(run + t) == run + DeCapRuns(t)
  {
    var s := run + t;
    SpanOfRun(run, t);
    assert s[..|run|] == run && s[|run|..] == t;
  }

  lemma {:induction false} SpanOfRun(run: string, t: string)
    requires forall i :: 0 <= i < |run| ==> IsAcronymCapital(run[i])
    requires |t| == 0 || !IsAcronymCapital(t[0])
    ensures Span(run + t, IsAcronymCapital) == |run|
  {
    if |run| > 0 {
      var s := run + t;
      assert s[1..] == run[1..] + t;
      SpanOfRun(run[1..], t);
    } else {
      assert run + t == t;
    }
  }

  /** `basicCamelRegEx`: a camel letter, then digits, `|` and camel letters. */
  predicate IsBasicCamel(w: string) {
    |w| > 0 && IsCamelLetter(w[0]) && forall i :: 1 <= i < |w| ==> IsCamelTail(w[i])
  }

  /** `allCapsRegEx`: one or more acronym capitals and nothing else. */
  predicate IsAllCaps(w: string) {
    |w| > 0 && forall i :: 0 <= i < |w| ==> IsAcronymCapital(w[i])
  }

  /** The `isCamelCase` test of `camelCase`. */
  predicate IsCamelLike(w: string) {
    IsBasicCamel(w) && !IsAllCaps(w)
  }

  /**
   * The mapped word of `camelCase`: an empty piece maps to nothing (its slot
   * of `mappedWords` stays `undefined`, which `join` writes as ""); otherwise
   * the first letter is upper-cased when `capitalise` (the piece is not the
   * first) and lower-cased when not, and the rest is lower-cased unless the
   * piece is camel-like, whose acronyms are rewritten by `deCap` instead.
   * The acronym rewrite keeps the first letter, so it is taken from `w`.
   */
  function CamelWord(w: string, capitalise: bool): (r: string)
    ensures |r| == |w|
  {
    if |w| == 0 then []
    else
      var first := if capitalise then Upper(w[0]) else Lower(w[0]);
      [first] + (if IsCamelLike(w) then DeCapRuns(w)[1..] else LowerAll(w[1..]))
  }

  /** A mapped word is its piece up to case. */
  lemma CamelWordFolds(w: string, capitalise: bool)
    ensures SameUpToCase(CamelWord(w, capitalise), w)
  {
    if |w| > 0 {
      var r := CamelWord(w, capitalise);
      var first := if capitalise then Upper(w[0]) else Lower(w[0]);
      var rest := if IsCamelLike(w) then DeCapRuns(w)[1..] else LowerAll(w[1..]);
      assert r == [first] + rest;
      FoldOfCaseMapping(w[0]);
      assert SameUpToCase(rest, w[1..]) by {
        if IsCamelLike(w) {
          DeCapRunsSpec(w);
          assert forall i :: 0 <= i < |rest| ==> rest[i] == DeCapRuns(w)[i + 1] && w[1..][i] == w[i + 1];
        } else {
          SameUpToCaseOfLowerAll(w[1..]);
        }
      }
      SameUpToCaseOfAppend([first], rest, [w[0]], w[1..]);
      assert w == [w[0]] + w[1..];
    }
  }

  /**
   * The first letter of a mapped word is the piece's first letter, upper-cased
   * when `capitalise` and lower-cased otherwise; the rest of a piece that is
   * not camel-like is lower-cased; a camel-like piece keeps every letter
   * outside its runs of four or more acronym capitals.
   */
  lemma CamelWordSpec(w: string, capitalise: bool)
    requires |w| > 0
    ensures CamelWord(w, capitalise)[0] == if capitalise then Upper(w[0]) else Lower(w[0])
    ensures !IsCamelLike(w) ==> forall i :: 1 <= i < |w| ==> CamelWord(w, capitalise)[i] == Lower(w[i])
    ensures IsCamelLike(w) ==> CamelWord(w, capitalise)[1..] == DeCapRuns(w)[1..]
  {
    var r := CamelWord(w, capitalise);
    if !IsCamelLike(w) {
      var low := LowerAll(w[1..]);
      forall i | 1 <= i < |w|
        ensures r[i] == Lower(w[i])
      {
        assert r[i] == low[i - 1];
        assert w[1..][i - 1] == w[i];
      }
    }
  }

  /** The mapped word built from the piece after its acronym rewrite, as the loop of `camelCase` builds it. */
  lemma CamelWordOfRewritten(w: string, capitalise: bool)
    requires |w| > 0
    ensures var word := if IsCamelLike(w) then DeCapRuns(w) else w;
            CamelWord(w, capitalise)
            == [if capitalise then Upper(word[0]) else Lower(word[0])]
               + (if !IsCamelLike(w) then LowerAll(word[1..]) else word[1..])
  {
    DeCapRunsSpec(w);
  }

  /** The mapped words of `camelCase`, in order: only the piece at index 0 is not capitalised. */
  function CamelWords(ws: seq<string>): (r: seq<string>)
    ensures |r| == |ws|
    ensures forall i :: 0 <= i < |ws| ==> r[i] == CamelWord(ws[i], i > 0)
  {
    if |ws| == 0 then [] else [CamelWord(ws[0], false)] + CapitalisedWords(ws[1..])
  }

  function CapitalisedWords(ws: seq<string>): (r: seq<string>)
    ensures |r| == |ws|
    ensures forall i :: 0 <= i < |ws| ==> r[i] == CamelWord(ws[i], true)
  {
    if |ws| == 0 then [] else [CamelWord(ws[0], true)] + CapitalisedWords(ws[1..])
  }

  /** `camelCase(str)`: the mapped words of its pieces, joined with nothing between them. */
  function CamelCased(s: string): string {
    Concat(CamelWords(Split(s)))
  }

  /** `camelCase`, with its loop over the pieces writing into the preallocated `mappedWords`. */
  method CamelCase(s: string) returns (r: string)
    ensures r == CamelCased(s)
  {
    var words := Split(s);
    var len := |words|;
    var mappedWords := new string[len](_ => "");
    for i := 0 to len
      invariant forall j :: 0 <= j < i ==> mappedWords[j] == CamelWord(words[j], j > 0)
      invariant forall j :: i <= j < len ==> mappedWords[j] == ""
    {
      var word := words[i];
      if word == "" {
        assert mappedWords[i] == CamelWord(words[i], i > 0);
        continue;
      }
      var isCamelCase := IsCamelLike(word);
      if isCamelCase {
        word := DeCapRuns(word);
      }
      var firstLetter := word[0];
      firstLetter := if i > 0 then Upper(firstLetter) else Lower(firstLetter);
      var mapped := [firstLetter] + (if !isCamelCase then LowerAll(word[1..]) else word[1..]);
      assert mapped == CamelWord(words[i], i > 0) by {
        CamelWordOfRewritten(words[i], i > 0);
      }
      mappedWords[i] := mapped;
    }
    assert mappedWords[..] == CamelWords(words);
    r := Concat(mappedWords[..]);
  }

  /** The empty string has one empty piece, which maps to nothing. */
  lemma CamelCasedEmpty()
    ensures CamelCased("") == ""
  {
    assert Split("") == [""];
    assert CamelWords([""]) == [""];
    assert Concat([""]) == "" + Concat([]);
  }

  /**
   * `camelCase` drops every separator and keeps every other character, in
   * order, changing at most its case.
   */
  lemma CamelCasedLetters(s: string)
    ensures SameUpToCase(CamelCased(s), Letters(s))
    ensures NoSeparator(CamelCased(s))
  {
    var ws := Split(s);
    forall i | 0 <= i < |ws|
      ensures SameUpToCase(CamelWords(ws)[i], ws[i])
    {
      CamelWordFolds(ws[i], i > 0);
    }
    SameUpToCaseOfConcat(CamelWords(ws), ws);
    SplitKeepsLetters(s);
    LettersAreWords(s);
    SameUpToCaseKeepsSeparators(CamelCased(s), Letters(s));
  }

  /** The first character of a concatenation whose first piece is not empty. */
  lemma ConcatFirst(ws: seq<string>)
    requires |ws| > 0 && |ws[0]| > 0
    ensures |Concat(ws)| > 0 && Concat(ws)[0] == ws[0][0]
  {
  }

  /**
   * The piece at index 0 is lower-cased at its first letter and every later
   * piece is capitalised, empty pieces included in the count: a text that
   * starts with a letter starts its result with that letter lower-cased, and a
   * text that starts with a separator starts its result with its first letter
   * upper-cased.
   */
  lemma {:induction false} CamelCasedFirst(s: string)
    requires |Letters(s)| > 0
    ensures |CamelCased(s)| > 0
    ensures !IsSeparator(s[0]) ==> CamelCased(s)[0] == Lower(s[0])
    ensures IsSeparator(s[0]) ==> CamelCased(s)[0] == Upper(Letters(s)[0])
  {
    var ws := Split(s);
    var cw := CamelWords(ws);
    SplitHead(s);
    SplitKeepsLetters(s);
    if !IsSeparator(s[0]) {
      CamelWordSpec(ws[0], false);
      ConcatFirst(cw);
    } else {
      assert Concat(ws) == ws[0] + Concat(ws[1..]) == Concat(ws[1..]);
      assert |ws| > 1;
      assert |ws[1]| > 0 by {
        SplitInnerPiecesNonEmpty(s);
        if |ws| == 2 {
          assert Concat(ws[1..]) == ws[1] + Concat([]);
        }
      }
      ConcatFirst(ws[1..]);
      CamelWordSpec(ws[1], true);
      assert cw[0] == [];
      assert Concat(cw) == Concat(cw[1..]);
      ConcatFirst(cw[1..]);
    }
  }

  /** The mapped words of `pascalCase`: every piece with its first letter upper-cased. */
  function PascalWords(ws: seq<string>): (r: seq<string>)
    ensures |r| == |ws|
    ensures forall i :: 0 <= i < |ws| ==> r[i] == UpperFirst(ws[i])
  {
    if |ws| == 0 then [] else [UpperFirst(ws[0])] + PascalWords(ws[1..])
  }

  /** `pascalCase(str)`: the mapped words of its pieces, joined with nothing between them. */
  function PascalCased(s: string): string {
    Concat(PascalWords(Split(s)))
  }

  /** `pascalCase`, with its loop over the pieces writing into the preallocated `mappedWords`. */
  method PascalCase(s: string) returns (r: string)
    ensures r == PascalCased(s)
  {
    var words := Split(s);
    var len := |words|;
    var mappedWords := new string[len](_ => "");
    for i := 0 to len
      invariant forall j :: 0 <= j < i ==> mappedWords[j] == UpperFirst(words[j])
      invariant forall j :: i <= j < len ==> mappedWords[j] == ""
    {
      var word := words[i];
      if word == "" {
        continue;
      }
      mappedWords[i] := [Upper(word[0])] + word[1..];
    }
    assert mappedWords[..] == PascalWords(words);
    r := Concat(mappedWords[..]);
  }

  lemma PascalCasedEmpty()
    ensures PascalCased("") == ""
  {
    assert Split("") == [""];
    assert PascalWords([""]) == [""];
    assert Concat([""]) == "" + Concat([]);
  }

  /**
   * `pascalCase` drops every separator and keeps every other character, in
   * order, changing at most its case.
   */
  lemma PascalCasedLetters(s: string)
    ensures SameUpToCase(PascalCased(s), Letters(s))
    ensures NoSeparator(PascalCased(s))
  {
    var ws := Split(s);
    forall i | 0 <= i < |ws|
      ensures SameUpToCase(PascalWords(ws)[i], ws[i])
    {
      FirstLetterCase(ws[i]);
    }
    SameUpToCaseOfConcat(PascalWords(ws), ws);
    SplitKeepsLetters(s);
    LettersAreWords(s);
    SameUpToCaseKeepsSeparators(PascalCased(s), Letters(s));
  }

  /** Upper-casing the first letter of every piece upper-cases the first letter of the concatenation. */
  lemma {:induction false} PascalWordsFirst(ws: seq<string>)
    requires |Concat(ws)| > 0
    ensures |Concat(PascalWords(ws))| > 0
    ensures Concat(PascalWords(ws))[0] == Upper(Concat(ws)[0])
  {
    if |ws[0]| > 0 {
      ConcatFirst(ws);
      ConcatFirst(PascalWords(ws));
    } else {
      assert Concat(ws) == Concat(ws[1..]);
      assert PascalWords(ws) == [[]] + PascalWords(ws[1..]);
      assert Concat(PascalWords(ws)) == Concat(PascalWords(ws[1..]));
      PascalWordsFirst(ws[1..]);
    }
  }

  /** The result starts with the first letter of the text, upper-cased. */
  lemma PascalCasedFirst(s: string)
    requires |Letters(s)| > 0
    ensures |PascalCased(s)| > 0 && PascalCased(s)[0] == Upper(Letters(s)[0])
  {
    SplitKeepsLetters(s);
    PascalWordsFirst(Split(s));
  }

  /**
   * `pascalCase` is idempotent: its result has no separators, so it is one
   * piece, whose first letter is already upper case.
   */
  lemma PascalCasedIdempotent(s: string)
    ensures PascalCased(PascalCased(s)) == PascalCased(s)
  {
    var p := PascalCased(s);
    PascalCasedLetters(s);
    SplitOfWord(p);
    assert PascalWords([p]) == [UpperFirst(p)];
    assert Concat([UpperFirst(p)]) == UpperFirst(p) + Concat([]);
    if |p| > 0 {
      PascalCasedFirst(s);
      UpperIdempotent(Letters(s)[0]);
      assert [Upper(p[0])] + p[1..] == p;
    }
  }

  /** A text without separators is one piece: the piece at index 0. */
  lemma CamelCasedOfWord(w: string)
    requires NoSeparator(w)
    ensures CamelCased(w) == CamelWord(w, false)
  {
    SplitOfWord(w);
    assert CamelWords([w]) == [CamelWord(w, false)];
    assert Concat([CamelWord(w, false)]) == CamelWord(w, false) + Concat([]);
  }

  /** Two words around one separator are the pieces at index 0 and 1. */
  lemma CamelCasedOfTwoWords(a: string, c: char, b: string)
    requires |a| > 0 && |b| > 0 && NoSeparator(a) && NoSeparator(b) && IsSeparator(c)
    ensures CamelCased(a + [c] + b) == CamelWord(a, false) + CamelWord(b, true)
  {
    SplitOfAppend(a, [c], b);
    SplitOfWord(a);
    SplitOfWord(b);
    var x, y := CamelWord(a, false), CamelWord(b, true);
    assert CamelWords([a] + [b]) == [x, y];
    assert Concat([x, y]) == x + (y + Concat([]));
  }

  /** Two all-caps words around one separator: the first lower-cased, the second capitalised. */
  lemma CamelCasedOfCapsWords(a: string, c: char, b: string)
    requires IsAllCaps(a) && IsAllCaps(b) && IsSeparator(c)
    ensures CamelCased(a + [c] + b) == LowerAll(a) + ([Upper(b[0])] + LowerAll(b[1..]))
  {
    CamelCasedOfTwoWords(a, c, b);
    assert LowerAll(a) == [Lower(a[0])] + LowerAll(a[1..]);
  }

  /** The test of `camelCaseProperties`: `BIG_WORDS` becomes `bigWords`. */
  lemma CamelCaseExample()
    ensures CamelCased("BIG" + "_" + "WORDS") == "big" + "Words"
  {
    CapsExampleWords();
    CapsExampleLowered();
  }

  lemma CapsExampleWords()
    ensures CamelCased("BIG" + "_" + "WORDS") == LowerAll("BIG") + ([Upper('W')] + LowerAll("ORDS"))
  {
    assert IsAllCaps("BIG") && IsAllCaps("WORDS");
    CamelCasedOfCapsWords("BIG", '_', "WORDS");
    assert "WORDS"[1..] == "ORDS";
  }

  lemma DashedCapsWords()
    ensures CamelCased("BIG" + "-" + "WORDS") == LowerAll("BIG") + ([Upper('W')] + LowerAll("ORDS"))
  {
    assert IsAllCaps("BIG") && IsAllCaps("WORDS");
    CamelCasedOfCapsWords("BIG", '-', "WORDS");
    assert "WORDS"[1..] == "ORDS";
  }

  lemma CapsExampleLowered()
    ensures LowerAll("BIG") + ([Upper('W')] + LowerAll("ORDS")) == "big" + "Words"
  {
    assert LowerAll("BIG") == "big";
    assert LowerAll("ORDS") == "ords";
  }

  /**
   * A camel-like word made of a plain start, one run of four or more acronym
   * capitals and a plain end: only the run is rewritten, keeping its last
   * letter because the run does not end the word.
   */
  lemma CamelCasedOfAcronym(a: string, run: string, b: string)
    requires |a| > 0 && |b| > 0
    requires IsCamelLike(a + run + b) && NoSeparator(a + run + b)
    requires forall i :: 0 <= i < |a| ==> !IsAcronymCapital(a[i])
    requires forall i :: 0 <= i < |b| ==> !IsAcronymCapital(b[i])
    requires |run| >= 4 && forall i :: 0 <= i < |run| ==> IsAcronymCapital(run[i])
    ensures CamelCased(a + run + b) == ([Lower(a[0])] + a[1..]) + DeCapped(run, false) + b
  {
    var w := a + run + b;
    var D := DeCapped(run, false);
    DeCapRunsOfAcronym(a, run, b);
    CamelCasedOfCamelWord(w);
    TailOfFrontedAppend(a, D, b);
    assert w[0] == a[0];
  }

  /** A camel-like word without separators: its first letter lower-cased, then its acronym rewrite. */
  lemma CamelCasedOfCamelWord(w: string)
    requires NoSeparator(w) && IsCamelLike(w)
    ensures CamelCased(w) == [Lower(w[0])] + DeCapRuns(w)[1..]
  {
    CamelCasedOfWord(w);
  }

  lemma TailOfFrontedAppend(a: string, d: string, b: string)
    requires |a| > 0
    ensures [Lower(a[0])] + (a + (d + b))[1..] == ([Lower(a[0])] + a[1..]) + d + b
  {
    assert (a + (d + b))[1..] == a[1..] + (d + b);
  }

  lemma DeCapRunsOfAcronym(a: string, run: string, b: string)
    requires |b| > 0
    requires forall i :: 0 <= i < |a| ==> !IsAcronymCapital(a[i])
    requires forall i :: 0 <= i < |b| ==> !IsAcronymCapital(b[i])
    requires |run| >= 4 && forall i :: 0 <= i < |run| ==> IsAcronymCapital(run[i])
    ensures DeCapRuns(a + run + b) == a + (DeCapped(run, false) + b)
  {
    assert a + run + b == a + (run + b);
    DeCapRunsOfPlain(a, run + b);
    DeCapRunsOfRun(run, b);
    assert DeCapRuns(b) == b by {
      DeCapRunsOfPlain(b, []);
      assert b + [] == b;
    }
  }

  /** `deCap` on a run not at the end of its word: the inner letters are lower-cased, the first and the last are kept. */
  lemma DeCappedInside(first: char, mid: string, last: char)
    requires IsAcronymCapital(first)
    ensures DeCapped([first] + mid + [last], false) == [first] + LowerAll(mid) + [last]
  {
    var run := [first] + mid + [last];
    assert run[1..|run| - 1] == mid;
    LowerRemovesAsciiUpper(first);
  }

  /**
   * An acronym run inside a camel-like word: `fooABCDBar` becomes
   * `fooAbcdBar`, the run `ABCDB` keeping its first and its last letter.
   */
  lemma CamelCaseAcronymExample()
    ensures CamelCased("foo" + "ABCDB" + "ar") == "foo" + ("A" + "bcd" + "B") + "ar"
  {
    AcronymExampleWord();
    AcronymExampleRun();
    assert [Lower('f')] + "foo"[1..] == "foo";
  }

  lemma AcronymExampleWord()
    ensures CamelCased("foo" + "ABCDB" + "ar") == ([Lower('f')] + "foo"[1..]) + DeCapped("ABCDB", false) + "ar"
  {
    assert IsCamelLike("foo" + "ABCDB" + "ar");
    CamelCasedOfAcronym("foo", "ABCDB", "ar");
  }

  lemma AcronymExampleRun()
    ensures DeCapped("ABCDB", false) == "A" + "bcd" + "B"
  {
    assert "ABCDB" == ['A'] + "BCD" + ['B'];
    DeCappedInside('A', "BCD", 'B');
    assert LowerAll("BCD") == "bcd";
  }

  /** `deCap` on a run that ends its word: everything after the first letter is lower-cased. */
  lemma DeCappedAtEnd(run: string)
    requires |run| >= 2 && IsAcronymCapital(run[0])
    ensures DeCapped(run, true) == [run[0]] + LowerAll(run[1..])
  {
    LowerRemovesAsciiUpper(run[0]);
    var n := |run|;
    assert LowerAll(run[1..]) == LowerAll(run[1..n - 1]) + [Lower(run[n - 1])];
  }

  /**
   * A small letter, a separator, then a small letter and three capitals: the
   * second word is capitalised and its short run is kept.
   */
  lemma CamelFirstPass(x: char, c: char, y: char, run: string)
    requires IsAsciiLower(x) && IsAsciiLower(y) && IsSeparator(c)
    requires |run| == 3 && forall i :: 0 <= i < 3 ==> IsAsciiUpper(run[i])
    ensures CamelCased([x] + [c] + ([y] + run)) == [x] + ([Upper(y)] + run)
  {
    var w := [y] + run;
    assert NoSeparator(w) by {
      assert forall i :: 1 <= i < |w| ==> w[i] == run[i - 1];
    }
    CamelCasedOfTwoWords([x], c, w);
    assert CamelWord([x], false) == [x] by {
      assert IsCamelLike([x]);
      DeCapRunsOfPlain([x], []);
      assert [x] + [] == [x];
    }
    assert CamelWord(w, true) == [Upper(y)] + run by {
      assert IsCamelLike(w) by {
        assert forall i :: 1 <= i < |w| ==> w[i] == run[i - 1];
      }
      DeCapRunsOfPlain([y], run);
      DeCapRunsOfShortRun(run, []);
      assert run + [] == run;
    }
  }

  /**
   * A small letter, then a capital and three more: the four capitals are a
   * run that ends the word, so all but its first letter are lower-cased.
   */
  lemma CamelSecondPass(x: char, run: string)
    requires IsAsciiLower(x)
    requires |run| == 4 && forall i :: 0 <= i < 4 ==> IsAsciiUpper(run[i])
    ensures CamelCased([x] + run) == [x] + ([run[0]] + LowerAll(run[1..]))
  {
    var v := [x] + run;
    assert forall i :: 1 <= i < |v| ==> v[i] == run[i - 1];
    assert NoSeparator(v) && IsCamelLike(v);
    DeCapRunsOfTrailingRun(x, run);
    DeCappedAtEnd(run);
    CamelCasedOfWord(v);
  }

  /** A plain letter followed by a run that ends the word: the run is rewritten as an ending run. */
  lemma DeCapRunsOfTrailingRun(x: char, run: string)
    requires !IsAcronymCapital(x)
    requires |run| >= 4 && forall i :: 0 <= i < |run| ==> IsAcronymCapital(run[i])
    ensures DeCapRuns([x] + run) == [x] + DeCapped(run, true)
  {
    DeCapRunsOfEndingRun(run);
    DeCapRunsOfPlain([x], run);
  }

  /** A word that is one run of four or more acronym capitals is rewritten as an ending run. */
  lemma DeCapRunsOfEndingRun(run: string)
    requires |run| >= 4 && forall i :: 0 <= i < |run| ==> IsAcronymCapital(run[i])
    ensures DeCapRuns(run) == DeCapped(run, true)
  {
    SpanOfRun(run, []);
    assert run + [] == run;
  }

  /**
   * `camelCase` is not idempotent: `a_bCDE` becomes `aBCDE`, where the
   * capitals now form a run of four that a second pass rewrites to `aBcde`.
   */
  lemma CamelCaseNotIdempotent()
    ensures CamelCased("a" + "_" + "bCDE") == "a" + "BCDE"
    ensures CamelCased("a" + "BCDE") == "a" + "Bcde"
  {
    NotIdempotentFirstPass();
    NotIdempotentSecondPass();
  }

  lemma NotIdempotentFirstPass()
    ensures CamelCased("a" + "_" + "bCDE") == "a" + "BCDE"
  {
    assert "a" + "_" + "bCDE" == ['a'] + ['_'] + (['b'] + "CDE");
    CamelFirstPass('a', '_', 'b', "CDE");
    assert ['a'] + ([Upper('b')] + "CDE") == "a" + "BCDE";
  }

  lemma NotIdempotentSecondPass()
    ensures CamelCased("a" + "BCDE") == "a" + "Bcde"
  {
    CamelSecondPass('a', "BCDE");
    assert LowerAll("CDE") == "cde";
    assert ['a'] + (['B'] + LowerAll("CDE")) == "a" + "Bcde";
  }
}
