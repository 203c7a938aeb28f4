/**
 * `snakeCase` and `kebabCase` of string-utils.ts: rewrite capitals into
 * space-led lower-case runs, trim, split at separator runs and join the
 * pieces with a delimiter.
 */
module DelimiterCase {
  import opened Chars
  import opened Text
  import opened StringUtils

  /**
   * The global replace of `capitals`, scanned one character at a time:
   * `inRun` says the previous character was a capital of the same run. The
   * first capital of a maximal run gets a space in front of it and every
   * capital of the run is lower-cased.
   */
  function CapitalRunsSpaced(s: string, inRun: bool): (r: string)
    ensures |r| >= |s|
  {
    if |s| == 0 then [] else SpacedHead(s[0], inRun) + CapitalRunsSpaced(s[1..], IsCapital(s[0]))
  }

  /** What the rewrite makes of one character. */
  function SpacedHead(c: char, inRun: bool): (r: string)
    ensures |r| >= 1
  {
    if !IsCapital(c) then [c] else if inRun then [Lower(c)] else [' ', Lower(c)]
  }

  /** `str.replace(capitals, (match) => " " + match.toLowerCase())`. */
  function SpacedCapitals(s: string): string {
    CapitalRunsSpaced(s, false)
  }

  /** `str.trim().split(wordSeparators).join(sep)`. */
  function DelimiterJoined(s: string, sep: string): string {
    Join(Split(Trim(s)), sep)
  }

  /** `snakeCase(str)`. */
  function SnakeCased(s: string): string {
    DelimiterJoined(SpacedCapitals(s), "_")
  }

  // Properties of the capital rewrite

  /** The rewrite adds spaces only and lower-cases capitals, so its letters are the input's with capitals lowered. */
  lemma {:induction false} LettersOfCapitalRunsSpaced(s: string, inRun: bool)
    ensures Letters(CapitalRunsSpaced(s, inRun)) == MapChars(Letters(s), LowerCapital)
  {
    if |s| > 0 {
      var c := s[0];
      LettersOfCapitalRunsSpaced(s[1..], IsCapital(c));
      LettersOfAppend(SpacedHead(c, inRun), CapitalRunsSpaced(s[1..], IsCapital(c)));
      LettersOfSpacedHead(c, inRun);
      assert s == [c] + s[1..];
      LettersOfAppend([c], s[1..]);
      MapCharsOfAppend(Letters([c]), Letters(s[1..]), LowerCapital);
    }
  }

  lemma LettersOfSpacedHead(c: char, inRun: bool)
    ensures Letters(SpacedHead(c, inRun)) == MapChars(Letters([c]), LowerCapital)
  {
    CaseMappingKeepsSeparators(c);
    assert Letters([c]) == (if IsSeparator(c) then [] else [c]) + Letters([]);
    if IsCapital(c) && !inRun {
      assert SpacedHead(c, inRun)[1..] == [Lower(c)];
    }
  }

  lemma MapCharsOfAppend(a: string, b: string, f: char -> char)
    ensures MapChars(a + b, f) == MapChars(a, f) + MapChars(b, f)
  {
  }

  /** No ASCII capital survives the rewrite. */
  lemma {:induction false} CapitalRunsSpacedLowers(s: string, inRun: bool)
    ensures AllChars(CapitalRunsSpaced(s, inRun), NotAsciiUpper)
  {
    if |s| > 0 {
      CapitalRunsSpacedLowers(s[1..], IsCapital(s[0]));
      LowerRemovesAsciiUpper(s[0]);
      AllCharsOfAppend(SpacedHead(s[0], inRun), CapitalRunsSpaced(s[1..], IsCapital(s[0])), NotAsciiUpper);
    }
  }

  predicate NotAsciiUpper(c: char) {
    !IsAsciiUpper(c)
  }

  /** Text without capitals is left as it is. */
  lemma {:induction false} CapitalRunsSpacedOfPlain(a: string, t: string, inRun: bool)
    requires forall i :: 0 <= i < |a| ==> !IsCapital(a[i])
    ensures CapitalRunsSpaced(a + t, inRun) == a + CapitalRunsSpaced(t, if |a| > 0 then false else inRun)
  {
    if |a| > 0 {
      assert (a + t)[0] == a[0] && (a + t)[1..] == a[1..] + t;
      CapitalRunsSpacedOfPlain(a[1..], t, false);
      assert a == [a[0]] + a[1..];
    } else {
      assert a + t == t;
    }
  }

  /** A run of capitals becomes a space and the lower-cased run. */
  lemma {:induction false} CapitalRunsSpacedOfRun(run: string, t: string, inRun: bool)
    requires |run| > 0 && forall i :: 0 <= i < |run| ==> IsCapital(run[i])
    ensures CapitalRunsSpaced(run + t, inRun) == (if inRun then [] else [' ']) + LowerAll(run) + CapitalRunsSpaced(t, true)
  {
    var pre: string := if inRun then [] else [' '];
    var t' := run[1..] + t;
    assert run + t == [run[0]] + t';
    CapitalRunsSpacedStep(run[0], t', inRun);
    assert SpacedHead(run[0], inRun) == pre + [Lower(run[0])];
    var rest := CapitalRunsSpaced(t, true);
    if |run| == 1 {
      assert t' == t;
      assert LowerAll(run) == [Lower(run[0])];
    } else {
      CapitalRunsSpacedOfRun(run[1..], t, true);
      assert LowerAll(run) == [Lower(run[0])] + LowerAll(run[1..]);
      assert CapitalRunsSpaced(t', true) == LowerAll(run[1..]) + rest;
      RunRegroup(pre, [Lower(run[0])], LowerAll(run[1..]), rest);
    }
  }

  lemma CapitalRunsSpacedStep(c: char, t: string, inRun: bool)
    ensures CapitalRunsSpaced([c] + t, inRun) == SpacedHead(c, inRun) + CapitalRunsSpaced(t, IsCapital(c))
  {
    assert ([c] + t)[1..] == t;
  }

  lemma RunRegroup(pre: string, h: string, l: string, rest: string)
    ensures pre + h + (l + rest) == pre + (h + l) + rest
  {
  }

  /** After a run, a character that is not a capital is treated as at the start of the text. */
  lemma CapitalRunsSpacedAfterRun(t: string)
    requires |t| == 0 || !IsCapital(t[0])
    ensures CapitalRunsSpaced(t, true) == CapitalRunsSpaced(t, false)
  {
  }

  // Properties of snakeCase

  /** `snakeCase("")` is `""`. */
  lemma SnakeCasedEmpty()
    ensures SnakeCased("") == ""
  {
    assert Trim("") == "";
    assert Split("") == [""];
  }

  /** Trimming, splitting and joining with separator characters keep exactly the letters. */
  lemma LettersOfDelimiterJoined(s: string, sep: string)
    requires AllSeparators(sep)
    ensures Letters(DelimiterJoined(s, sep)) == Letters(s)
  {
    var t := Trim(s);
    LettersOfJoin(Split(t), sep);
    SplitKeepsLetters(t);
    LettersAreWords(t);
    LettersOfWord(Letters(t));
    LettersOfTrim(s);
  }

  /** Outside the delimiter, the output holds no separator. */
  lemma DelimiterJoinedSeparators(s: string, d: char)
    ensures AllChars(DelimiterJoined(s, [d]), c => c == d || !IsSeparator(c))
  {
    var p := c => c == d || !IsSeparator(c);
    var ws := Split(Trim(s));
    SplitPiecesAreWords(Trim(s));
    assert forall i :: 0 <= i < |ws| ==> AllChars(ws[i], p);
    AllCharsOfJoin(ws, [d], p);
  }

  /** A property of every character that the delimiter has survives trimming, splitting and joining. */
  lemma DelimiterJoinedKeeps(s: string, sep: string, p: char -> bool)
    requires AllChars(s, p) && AllChars(sep, p)
    ensures AllChars(DelimiterJoined(s, sep), p)
  {
    AllCharsOfTrim(s, p);
    AllCharsOfSplit(Trim(s), p);
    AllCharsOfJoin(Split(Trim(s)), sep, p);
  }

  /**
   * `snakeCase` keeps every letter in order, lowering the capitals, and
   * drops every separator except the `_` it puts between pieces.
   */
  lemma SnakeCasedLetters(s: string)
    ensures Letters(SnakeCased(s)) == MapChars(Letters(s), LowerCapital)
    ensures AllChars(SnakeCased(s), c => c == '_' || !IsSeparator(c))
  {
    LettersOfDelimiterJoined(SpacedCapitals(s), "_");
    LettersOfCapitalRunsSpaced(s, false);
    DelimiterJoinedSeparators(SpacedCapitals(s), '_');
  }

  /** No ASCII capital survives `snakeCase`. */
  lemma SnakeCasedLowers(s: string)
    ensures AllChars(SnakeCased(s), NotAsciiUpper)
  {
    CapitalRunsSpacedLowers(s, false);
    DelimiterJoinedKeeps(SpacedCapitals(s), "_", NotAsciiUpper);
  }

  /** A non-empty word with neither capitals nor separators. */
  predicate IsPlainWord(w: string) {
    |w| > 0 && forall i :: 0 <= i < |w| ==> !IsCapital(w[i]) && !IsSeparator(w[i])
  }

  /** A text with no capitals and no whitespace at either end is what trimming, splitting and joining see as it is. */
  lemma SpacedCapitalsOfPlain(w: string)
    requires forall i :: 0 <= i < |w| ==> !IsCapital(w[i])
    ensures SpacedCapitals(w) == w
  {
    CapitalRunsSpacedOfPlain(w, [], false);
    assert w + [] == w;
  }

  /** Two words without separators, with a separator run between them and none around them, become two pieces joined by `sep`. */
  lemma DelimiterJoinedOfTwoWords(a: string, seps: string, w: string, sep: string)
    requires |a| > 0 && NoSeparator(a) && |w| > 0 && NoSeparator(w)
    requires |seps| > 0 && AllSeparators(seps)
    ensures DelimiterJoined(a + seps + w, sep) == a + sep + w
  {
    var x := a + seps + w;
    assert x[0] == a[0] && x[|x| - 1] == w[|w| - 1];
    TrimOfUnpadded(x);
    SplitOfTwoWords(a, seps, w);
    JoinOfTwo(a, w, sep);
  }

  /** A word without separators, with only whitespace in front of it, becomes that word. */
  lemma DelimiterJoinedOfWord(pre: string, w: string, sep: string)
    requires AllWhitespace(pre) && |w| > 0 && NoSeparator(w)
    ensures DelimiterJoined(pre + w, sep) == w
  {
    TrimOfPadded(pre, w, []);
    assert pre + w + [] == pre + w;
    SplitOfWord(w);
  }

  /** A leading separator run that is not whitespace before a word leaves an empty first piece. */
  lemma DelimiterJoinedOfLeadingSeparators(seps: string, w: string, sep: string)
    requires |seps| > 0 && AllSeparators(seps) && !IsWhitespace(seps[0])
    requires |w| > 0 && NoSeparator(w)
    ensures DelimiterJoined(seps + w, sep) == sep + w
  {
    var x := seps + w;
    assert x[0] == seps[0] && x[|x| - 1] == w[|w| - 1];
    TrimOfUnpadded(x);
    SplitOfLeadingSeparators(seps, w);
    JoinOfTwo([], w, sep);
    assert [] + sep == sep;
  }

  lemma SpacedCapitalsOfCapitalised(a: string, c: char, b: string)
    requires forall i :: 0 <= i < |a| ==> !IsCapital(a[i])
    requires |a| > 0 && IsCapital(c)
    requires forall i :: 0 <= i < |b| ==> !IsCapital(b[i])
    ensures SpacedCapitals(a + [c] + b) == a + " " + ([Lower(c)] + b)
  {
    assert a + [c] + b == a + ([c] + b);
    CapitalRunsSpacedOfPlain(a, [c] + b, false);
    CapitalRunsSpacedOfRun([c], b, false);
    SpacedCapitalsOfPlain(b);
    assert LowerAll([c]) == [Lower(c)];
  }

  /** One capital between two plain words starts the second word: `aBc` becomes `a_bc`. */
  lemma SnakeCasedOfCapitalised(a: string, c: char, b: string)
    requires IsPlainWord(a) && IsCapital(c)
    requires forall i :: 0 <= i < |b| ==> !IsCapital(b[i]) && !IsSeparator(b[i])
    ensures SnakeCased(a + [c] + b) == a + "_" + ([Lower(c)] + b)
  {
    SpacedCapitalsOfCapitalised(a, c, b);
    CaseMappingKeepsSeparators(c);
    DelimiterJoinedOfTwoWords(a, " ", [Lower(c)] + b, "_");
  }

  /** A run of capitals in front of a plain word is lower-cased and stays part of the word. */
  lemma SnakeCasedOfAcronym(run: string, b: string)
    requires |run| > 0 && forall i :: 0 <= i < |run| ==> IsCapital(run[i])
    requires IsPlainWord(b)
    ensures SnakeCased(run + b) == LowerAll(run) + b
  {
    var w := LowerAll(run) + b;
    assert SpacedCapitals(run + b) == " " + w by {
      CapitalRunsSpacedOfRun(run, b, false);
      SpacedCapitalsOfPlain(b);
    }
    forall i | 0 <= i < |run| ensures !IsSeparator(LowerAll(run)[i]) {
      CaseMappingKeepsSeparators(run[i]);
    }
    DelimiterJoinedOfWord(" ", w, "_");
  }

  /** A leading separator that is not whitespace leaves an empty first piece, so the output starts with `_`. */
  lemma SnakeCasedOfLeadingSeparator(c: char, w: string)
    requires IsSeparator(c) && !IsWhitespace(c) && IsPlainWord(w)
    ensures SnakeCased([c] + w) == "_" + w
  {
    SpacedCapitalsOfPlain([c] + w);
    DelimiterJoinedOfLeadingSeparators([c], w, "_");
  }

  /** The test of `snakeCaseProperties`: `bigWords` becomes `big_words`. */
  lemma SnakeCaseExample()
    ensures SnakeCased("bigWords") == "big_words"
  {
    BigWordsParts();
    SnakeCasedOfCapitalised("big", 'W', "ords");
    BigWordsSnaked();
  }

  lemma BigWordsParts()
    ensures "bigWords" == "big" + ['W'] + "ords"
    ensures IsPlainWord("big") && IsCapital('W')
    ensures forall i :: 0 <= i < |"ords"| ==> !IsCapital("ords"[i]) && !IsSeparator("ords"[i])
  {
  }

  lemma BigWordsSnaked()
    ensures "big" + "_" + ([Lower('W')] + "ords") == "big_words"
  {
  }

  /** An acronym running into a capitalised word is one token: `HTTPServer` becomes `httpserver`. */
  lemma SnakeCaseAcronymExample()
    ensures SnakeCased("HTTPServer") == "httpserver"
  {
    HttpServerParts();
    SnakeCasedOfAcronym("HTTPS", "erver");
    HttpServerSnaked();
  }

  lemma HttpServerParts()
    ensures "HTTPServer" == "HTTPS" + "erver"
    ensures forall i :: 0 <= i < |"HTTPS"| ==> IsCapital("HTTPS"[i])
    ensures IsPlainWord("erver")
  {
  }

  lemma HttpServerSnaked()
    ensures LowerAll("HTTPS") + "erver" == "httpserver"
  {
    assert LowerAll("HTTPS") == "https";
  }

  /** Empty edge pieces are kept: `_a` stays `_a`. */
  lemma SnakeCaseEdgeExample()
    ensures SnakeCased("_a") == "_a"
  {
    assert "_a" == ['_'] + "a";
    SnakeCasedOfLeadingSeparator('_', "a");
  }

  // kebabCase

  /**
   * The global replace of `capital_plus_lower`, scanned left to right: a
   * capital followed by a small letter becomes a space, the lower-cased
   * capital and the small letter, and the scan resumes after the pair.
   */
  function PlusLower(s: string): (r: string)
    ensures |r| >= |s|
    decreases |s|
  {
    if |s| >= 2 && IsCapital(s[0]) && IsSmall(s[1]) then [' ', Lower(s[0]), s[1]] + PlusLower(s[2..])
    else if |s| == 0 then []
    else [s[0]] + PlusLower(s[1..])
  }

  /**
   * `.replace(/^-/, "")`: the result is a suffix of `s`, one character
   * shorter exactly when `s` starts with a dash and otherwise `s` itself.
   */
  function DropLeadingDash(s: string): (r: string)
    ensures |r| <= |s| && r == s[|s| - |r|..]
    ensures |r| == |s| - 1 <==> |s| > 0 && s[0] == '-'
    ensures |r| == |s| <==> !(|s| > 0 && s[0] == '-')
    ensures r == s || (|s| > 0 && s[0] == '-' && r == s[1..])
  {
    if |s| > 0 && s[0] == '-' then s[1..] else s
  }

  /**
   * `.replace(/-\s*$/, "")`: a `-` followed by nothing but whitespace is
   * removed together with that whitespace.
   */
  function DropTrailingDash(s: string): (r: string)
    ensures |r| <= |s| && r == s[..|r|]
    ensures |r| < |s| <==> EndsWithDash(s)
    ensures |r| < |s| ==> s[|r|] == '-' && AllWhitespace(s[|r| + 1..])
  {
    var u := TrimEnd(s);
    TrimEndDropsWhitespace(s);
    if |u| > 0 && u[|u| - 1] == '-' then
      u[..|u| - 1]
    else
      assert EndsWithDash(s) ==> false by {
        if k :| 0 <= k < |s| && s[k] == '-' && AllWhitespace(s[k + 1..]) {
          assert s == s[..k + 1] + s[k + 1..];
          TrimEndOfPadded(s[..k + 1], s[k + 1..]);
        }
      }
      s
  }

  /** `/-\s*$/` matches `s`: a dash followed by nothing but whitespace. */
  predicate EndsWithDash(s: string) {
    exists k :: 0 <= k < |s| && s[k] == '-' && AllWhitespace(s[k + 1..])
  }

  /** `kebabCase(str)`. */
  function KebabCased(s: string): string {
    DropTrailingDash(DropLeadingDash(DelimiterJoined(SpacedCapitals(PlusLower(s)), "-")))
  }

  /** Pieces of a split: none holds a separator and only the first and the last can be empty. */
  predicate SplitShaped(ps: seq<string>) {
    |ps| > 0
    && (forall i :: 0 <= i < |ps| ==> NoSeparator(ps[i]))
    && (forall i :: 0 < i < |ps| - 1 ==> |ps[i]| > 0)
  }

  lemma SplitIsShaped(s: string)
    ensures SplitShaped(Split(s))
  {
    SplitPiecesAreWords(s);
    SplitInnerPiecesNonEmpty(s);
  }

  /** Dropping a leading dash drops an empty first piece. */
  lemma LeadingDashOfJoin(ps: seq<string>)
    requires SplitShaped(ps)
    ensures var qs := if |ps| > 1 && |ps[0]| == 0 then ps[1..] else ps;
            DropLeadingDash(Join(ps, "-")) == Join(qs, "-")
            && Words(qs) == Words(ps)
            && SplitShaped(qs) && (|qs| > 1 ==> |qs[0]| > 0)
  {
    if |ps| > 1 && |ps[0]| == 0 {
      assert Join(ps, "-") == ps[0] + "-" + Join(ps[1..], "-");
      assert ps[0] + "-" + Join(ps[1..], "-") == ['-'] + Join(ps[1..], "-");
    } else if |ps[0]| > 0 {
      JoinHead(ps, "-");
    }
  }

  /** Dropping a trailing dash drops an empty last piece when the other pieces are non-empty. */
  lemma TrailingDashOfJoin(qs: seq<string>)
    requires SplitShaped(qs) && (|qs| > 1 ==> |qs[0]| > 0)
    ensures DropTrailingDash(Join(qs, "-")) == Join(Words(qs), "-")
  {
    if |qs| > 1 && |qs[|qs| - 1]| == 0 {
      TrailingEmptyPiece(qs);
    } else if |qs[|qs| - 1]| > 0 {
      TrailingNonEmptyPiece(qs);
    } else {
      assert qs == [[]];
    }
  }

  /** Without an empty piece there is no dash to drop. */
  lemma TrailingNonEmptyPiece(qs: seq<string>)
    requires SplitShaped(qs) && |qs[0]| > 0 && |qs[|qs| - 1]| > 0
    ensures DropTrailingDash(Join(qs, "-")) == Join(Words(qs), "-")
  {
    forall i | 0 <= i < |qs| ensures |qs[i]| > 0 {
    }
    WordsOfNonEmpty(qs);
    JoinLast(qs, "-");
    DropTrailingDashNone(Join(qs, "-"));
  }

  /** An empty last piece after non-empty words leaves a dash that is dropped. */
  lemma TrailingEmptyPiece(qs: seq<string>)
    requires SplitShaped(qs) && |qs| > 1 && |qs[0]| > 0 && |qs[|qs| - 1]| == 0
    ensures DropTrailingDash(Join(qs, "-")) == Join(Words(qs), "-")
  {
    var init := qs[..|qs| - 1];
    assert qs == init + [[]];
    forall i | 0 <= i < |init| ensures |init[i]| > 0 && NoSeparator(init[i]) {
      assert init[i] == qs[i];
    }
    WordsOfAppend(init, [[]]);
    WordsOfNonEmpty(init);
    assert Words([[]]) == [];
    assert init + [] == init;
    JoinOfAppend(init, [[]], "-");
    assert Join([[]], "-") == [];
    JoinLast(init, "-");
    var w := init[|init| - 1];
    assert !IsSeparator(w[|w| - 1]);
    assert Join(qs, "-") == Join(init, "-") + "-";
    DropTrailingDashOfDash(Join(init, "-"));
  }

  /** A text that does not end with a separator loses nothing. */
  lemma DropTrailingDashNone(j: string)
    requires |j| == 0 || !IsSeparator(j[|j| - 1])
    ensures DropTrailingDash(j) == j
  {
  }

  /** A dash after a text that does not end with a separator is dropped. */
  lemma DropTrailingDashOfDash(j: string)
    requires |j| > 0 && !IsSeparator(j[|j| - 1])
    ensures DropTrailingDash(j + "-") == j
  {
    var t := j + "-";
    assert t[|t| - 1] == '-';
    assert TrimEnd(t) == t;
    assert t[..|t| - 1] == j;
  }

  /**
   * Dropping the leading and the trailing dash of the joined pieces of a
   * split is joining its non-empty pieces: the dashes that go are exactly
   * those an empty edge piece left.
   */
  lemma DashesDropped(ps: seq<string>)
    requires SplitShaped(ps)
    ensures DropTrailingDash(DropLeadingDash(Join(ps, "-"))) == Join(Words(ps), "-")
  {
    LeadingDashOfJoin(ps);
    var qs := if |ps| > 1 && |ps[0]| == 0 then ps[1..] else ps;
    TrailingDashOfJoin(qs);
  }

  /** The text `kebabCase` splits: both rewrites applied, then trimmed. */
  function KebabPieces(s: string): seq<string> {
    Split(Trim(SpacedCapitals(PlusLower(s))))
  }

  /**
   * `kebabCase` joins the non-empty pieces with `-`: the two dash removals
   * at the end take away exactly what empty edge pieces leave.
   */
  lemma KebabCasedWords(s: string)
    ensures KebabCased(s) == Join(Words(KebabPieces(s)), "-")
  {
    SplitIsShaped(Trim(SpacedCapitals(PlusLower(s))));
    DashesDropped(KebabPieces(s));
  }

  /** `kebabCase("")` is `""`. */
  lemma KebabCasedEmpty()
    ensures KebabCased("") == ""
  {
    assert Trim("") == "";
    assert Split("") == [""];
  }

  /**
   * Non-empty words without separators joined with a one-character
   * separator: the text neither starts nor ends with a separator, and holds
   * no separator other than the delimiter.
   */
  lemma {:induction false} JoinOfWordsShape(ws: seq<string>, d: char)
    requires forall i :: 0 <= i < |ws| ==> |ws[i]| > 0 && NoSeparator(ws[i])
    ensures var r := Join(ws, [d]);
            (|r| > 0 ==> !IsSeparator(r[0]) && !IsSeparator(r[|r| - 1]))
            && AllChars(r, c => c == d || !IsSeparator(c))
  {
    var p := c => c == d || !IsSeparator(c);
    forall i | 0 <= i < |ws| ensures AllChars(ws[i], p) {
    }
    AllCharsOfJoin(ws, [d], p);
    if |ws| > 0 {
      JoinHead(ws, [d]);
      JoinLast(ws, [d]);
    }
  }

  /**
   * The output of `kebabCase` never starts or ends with `-` (or any other
   * separator), and `-` is the only separator in it.
   */
  lemma KebabCasedEnds(s: string)
    ensures KebabShaped(KebabCased(s))
  {
    KebabJoinShape(s);
    KebabCasedWords(s);
  }

  /** No `-` at either end, and no separator other than `-`. */
  predicate KebabShaped(r: string) {
    (|r| > 0 ==> r[0] != '-' && r[|r| - 1] != '-')
    && AllChars(r, c => c == '-' || !IsSeparator(c))
  }

  lemma KebabJoinShape(s: string)
    ensures KebabShaped(Join(Words(KebabPieces(s)), "-"))
  {
    var ps := KebabPieces(s);
    SplitPiecesAreWords(Trim(SpacedCapitals(PlusLower(s))));
    WordsAreAmongPieces(ps);
    JoinOfWordsShape(Words(ps), '-');
  }

  /** The letters of a text with its capitals lowered. */
  function LoweredLetters(s: string): string {
    MapChars(Letters(s), LowerCapital)
  }

  lemma LoweredLettersOfAppend(a: string, b: string)
    ensures LoweredLetters(a + b) == LoweredLetters(a) + LoweredLetters(b)
  {
    LettersOfAppend(a, b);
    MapCharsOfAppend(Letters(a), Letters(b), LowerCapital);
  }

  /** One rewritten pair has the letters of the pair it replaces. */
  lemma LoweredLettersOfPair(c: char, x: char)
    requires IsCapital(c) && IsSmall(x)
    ensures LoweredLetters([' ', Lower(c), x]) == LoweredLetters([c, x])
  {
    CaseMappingKeepsSeparators(c);
    LowerCapitalOfLower(c);
    assert [' ', Lower(c), x] == [' '] + [Lower(c), x];
    LettersOfAppend([' '], [Lower(c), x]);
    assert Letters([' ']) == [];
    assert Letters([c, x]) == [c, x];
    assert Letters([Lower(c), x]) == [Lower(c), x];
  }

  /** The pair rewrite only adds spaces and lower-cases capitals. */
  lemma {:induction false} LettersOfPlusLower(s: string)
    ensures LoweredLetters(PlusLower(s)) == LoweredLetters(s)
    decreases |s|
  {
    if |s| >= 2 && IsCapital(s[0]) && IsSmall(s[1]) {
      var c, x := s[0], s[1];
      LettersOfPlusLower(s[2..]);
      assert s == [c, x] + s[2..];
      LoweredLettersOfAppend([c, x], s[2..]);
      LoweredLettersOfAppend([' ', Lower(c), x], PlusLower(s[2..]));
      LoweredLettersOfPair(c, x);
    } else if |s| > 0 {
      LettersOfPlusLower(s[1..]);
      assert s == [s[0]] + s[1..];
      LoweredLettersOfAppend([s[0]], s[1..]);
      LoweredLettersOfAppend([s[0]], PlusLower(s[1..]));
    }
  }

  /** `kebabCase` keeps every letter in order, lowering the capitals. */
  lemma KebabCasedLetters(s: string)
    ensures Letters(KebabCased(s)) == MapChars(Letters(s), LowerCapital)
  {
    KebabCasedWords(s);
    var x := SpacedCapitals(PlusLower(s));
    var ps := KebabPieces(s);
    LettersOfJoin(Words(ps), "-");
    ConcatOfWords(ps);
    LettersOfJoin(ps, "-");
    LettersOfDelimiterJoined(x, "-");
    LettersOfCapitalRunsSpaced(PlusLower(s), false);
    LettersOfPlusLower(s);
  }

  /** No ASCII capital survives `kebabCase`. */
  lemma KebabCasedLowers(s: string)
    ensures AllChars(KebabCased(s), NotAsciiUpper)
  {
    KebabCasedWords(s);
    var x := SpacedCapitals(PlusLower(s));
    var ps := KebabPieces(s);
    CapitalRunsSpacedLowers(PlusLower(s), false);
    AllCharsOfTrim(x, NotAsciiUpper);
    AllCharsOfSplit(Trim(x), NotAsciiUpper);
    WordsAreAmongPieces(ps);
    AllCharsOfJoin(Words(ps), "-", NotAsciiUpper);
  }

  // kebabCase on camel-joined words

  /** A word of at least two ASCII small letters. */
  predicate IsLowerWord(w: string) {
    |w| >= 2 && forall i :: 0 <= i < |w| ==> IsAsciiLower(w[i])
  }

  /** The words with their first letters upper-cased, joined with nothing between them: `["foo", "bar"]` gives `FooBar`. */
  function PascalJoined(ws: seq<string>): string {
    if |ws| == 0 then [] else UpperFirst(ws[0]) + PascalJoined(ws[1..])
  }

  /** Text without capitals is left alone by the pair rewrite. */
  lemma {:induction false} PlusLowerOfPlain(a: string, t: string)
    requires forall i :: 0 <= i < |a| ==> !IsCapital(a[i])
    ensures PlusLower(a + t) == a + PlusLower(t)
  {
    if |a| > 0 {
      assert (a + t)[0] == a[0] && (a + t)[1..] == a[1..] + t;
      PlusLowerOfPlain(a[1..], t);
      assert a == [a[0]] + a[1..];
    } else {
      assert a + t == t;
    }
  }

  /** A capitalised small word becomes a space and the word. */
  lemma PlusLowerOfCapitalised(w: string, t: string)
    requires IsLowerWord(w)
    ensures PlusLower(UpperFirst(w) + t) == " " + w + PlusLower(t)
  {
    var c := Upper(w[0]);
    CapitalisedPair(w, t);
    PlusLowerOfPair(c, w[1], w[2..] + t);
    assert Lower(c) == w[0];
    PlusLowerOfPlain(w[2..], t);
    SpaceLedWord(w, PlusLower(t));
  }

  lemma CapitalisedPair(w: string, t: string)
    requires |w| >= 2
    ensures UpperFirst(w) + t == [Upper(w[0]), w[1]] + (w[2..] + t)
  {
    assert UpperFirst(w) == [Upper(w[0])] + w[1..];
    assert w[1..] == [w[1]] + w[2..];
  }

  lemma SpaceLedWord(w: string, u: string)
    requires |w| >= 2
    ensures [' ', w[0], w[1]] + (w[2..] + u) == " " + w + u
  {
    assert w == [w[0], w[1]] + w[2..];
  }

  lemma PlusLowerOfPair(c: char, x: char, t: string)
    requires IsCapital(c) && IsSmall(x)
    ensures PlusLower([c, x] + t) == [' ', Lower(c), x] + PlusLower(t)
  {
    assert ([c, x] + t)[2..] == t;
  }

  /** A run of capitals not followed by a small letter is left alone by the pair rewrite. */
  lemma {:induction false} PlusLowerOfRun(run: string, t: string)
    requires forall i :: 0 <= i < |run| ==> IsCapital(run[i])
    requires |t| == 0 || !IsSmall(t[0])
    ensures PlusLower(run + t) == run + PlusLower(t)
  {
    if |run| > 0 {
      var t' := run[1..] + t;
      assert run + t == [run[0]] + t';
      assert |t'| == 0 || !IsSmall(t'[0]) by {
        if |run| > 1 {
          assert t'[0] == run[1];
        } else {
          assert t' == t;
        }
      }
      PlusLowerStep(run[0], t');
      PlusLowerOfRun(run[1..], t);
      ConsOntoRest(run, PlusLower(t));
    } else {
      assert run + t == t;
    }
  }

  lemma ConsOntoRest(run: string, p: string)
    requires |run| > 0
    ensures [run[0]] + (run[1..] + p) == run + p
  {
    assert run == [run[0]] + run[1..];
  }

  /** A character not starting a capital-small pair is kept and the scan moves on. */
  lemma PlusLowerStep(c: char, t: string)
    requires !IsCapital(c) || |t| == 0 || !IsSmall(t[0])
    ensures PlusLower([c] + t) == [c] + PlusLower(t)
  {
    assert ([c] + t)[1..] == t;
  }

  /** Camel-joined small words become the words with a space in front of each. */
  lemma {:induction false} PlusLowerOfPascalJoined(ws: seq<string>)
    requires |ws| > 0 && forall i :: 0 <= i < |ws| ==> IsLowerWord(ws[i])
    ensures PlusLower(PascalJoined(ws)) == " " + Join(ws, " ")
  {
    var rest := PascalJoined(ws[1..]);
    assert PascalJoined(ws) == UpperFirst(ws[0]) + rest;
    PlusLowerOfCapitalised(ws[0], rest);
    if |ws| == 1 {
      assert ws[1..] == [];
      assert PlusLower(rest) == [];
      assert Join(ws, " ") == ws[0];
      assert " " + ws[0] + [] == " " + ws[0];
    } else {
      PlusLowerOfPascalJoined(ws[1..]);
      var j := Join(ws[1..], " ");
      assert Join(ws, " ") == ws[0] + " " + j;
      SpacedRegroup(ws[0], j);
    }
  }

  lemma SpacedRegroup(w: string, j: string)
    ensures " " + w + (" " + j) == " " + (w + " " + j)
  {
  }

  /** Small words joined with spaces hold no capital and no separator but the spaces. */
  lemma SpacedWordsShape(ws: seq<string>)
    requires |ws| > 0 && forall i :: 0 <= i < |ws| ==> IsLowerWord(ws[i])
    ensures AllChars(Join(ws, " "), NotCapital)
    ensures |Join(ws, " ")| > 0 && !IsWhitespace(Join(ws, " ")[0])
    ensures !IsWhitespace(Join(ws, " ")[|Join(ws, " ")| - 1])
    ensures Split(Join(ws, " ")) == ws
  {
    forall i | 0 <= i < |ws| ensures AllChars(ws[i], NotCapital) && NoSeparator(ws[i]) {
    }
    AllCharsOfJoin(ws, " ", NotCapital);
    JoinHead(ws, " ");
    JoinLast(ws, " ");
    SplitJoin(ws, " ");
  }

  predicate NotCapital(c: char) {
    !IsCapital(c)
  }

  /** Small words joined with spaces, perhaps after one space, are left alone by the capital rewrite. */
  lemma SpacedCapitalsOfSpacedWords(pre: string, ws: seq<string>)
    requires pre == [] || pre == " "
    requires |ws| > 0 && forall i :: 0 <= i < |ws| ==> IsLowerWord(ws[i])
    ensures SpacedCapitals(pre + Join(ws, " ")) == pre + Join(ws, " ")
  {
    var j := Join(ws, " ");
    SpacedWordsShape(ws);
    AllCharsOfAppend(pre, j, NotCapital);
    SpacedCapitalsOfPlain(pre + j);
  }

  /** When the rewritten text is words joined with spaces, perhaps after one space, `kebabCase` joins those words with `-`. */
  lemma KebabCasedOfSpacedWords(s: string, pre: string, ws: seq<string>)
    requires pre == [] || pre == " "
    requires |ws| > 0 && forall i :: 0 <= i < |ws| ==> IsLowerWord(ws[i])
    requires PlusLower(s) == pre + Join(ws, " ")
    ensures KebabCased(s) == Join(ws, "-")
  {
    SpacedCapitalsOfSpacedWords(pre, ws);
    KebabCasedOfRespaced(s, pre, ws);
  }

  /** The same, when the text is words joined with spaces only after both rewrites. */
  lemma KebabCasedOfRespaced(s: string, pre: string, ws: seq<string>)
    requires pre == [] || pre == " "
    requires |ws| > 0 && forall i :: 0 <= i < |ws| ==> IsLowerWord(ws[i])
    requires SpacedCapitals(PlusLower(s)) == pre + Join(ws, " ")
    ensures KebabCased(s) == Join(ws, "-")
  {
    SplitOfSpacedWords(pre, ws);
    forall i | 0 <= i < |ws| ensures |ws[i]| > 0 {
    }
    WordsOfNonEmpty(ws);
    KebabCasedWords(s);
  }

  lemma SplitOfSpacedWords(pre: string, ws: seq<string>)
    requires pre == [] || pre == " "
    requires |ws| > 0 && forall i :: 0 <= i < |ws| ==> IsLowerWord(ws[i])
    ensures Split(Trim(pre + Join(ws, " "))) == ws
  {
    SpacedWordsShape(ws);
    TrimOfPadded(pre, Join(ws, " "), []);
    assert pre + Join(ws, " ") + [] == pre + Join(ws, " ");
  }

  /** `kebabCase` splits camel-joined small words, capitalised first word included: `BarBarBaz` becomes `bar-bar-baz`. */
  lemma KebabCasedOfPascalJoined(ws: seq<string>)
    requires |ws| > 0 && forall i :: 0 <= i < |ws| ==> IsLowerWord(ws[i])
    ensures KebabCased(PascalJoined(ws)) == Join(ws, "-")
  {
    PlusLowerOfPascalJoined(ws);
    KebabCasedOfSpacedWords(PascalJoined(ws), " ", ws);
  }

  /** `kebabCase` splits a small first word followed by camel-joined small words: `fooBarBaz` becomes `foo-bar-baz`. */
  lemma KebabCasedOfCamelJoined(w: string, ws: seq<string>)
    requires IsLowerWord(w) && |ws| > 0 && forall i :: 0 <= i < |ws| ==> IsLowerWord(ws[i])
    ensures KebabCased(w + PascalJoined(ws)) == Join([w] + ws, "-")
  {
    var all := [w] + ws;
    forall i | 0 <= i < |all| ensures IsLowerWord(all[i]) {
      if i > 0 {
        assert all[i] == ws[i - 1];
      }
    }
    PlusLowerOfCamelJoined(w, ws);
    KebabCasedOfSpacedWords(w + PascalJoined(ws), [], all);
  }

  lemma PlusLowerOfCamelJoined(w: string, ws: seq<string>)
    requires IsLowerWord(w) && |ws| > 0 && forall i :: 0 <= i < |ws| ==> IsLowerWord(ws[i])
    ensures PlusLower(w + PascalJoined(ws)) == [] + Join([w] + ws, " ")
  {
    PlusLowerOfPlain(w, PascalJoined(ws));
    PlusLowerOfPascalJoined(ws);
    JoinCons(w, ws, " ");
    AppendAssoc(w, " ", Join(ws, " "));
    assert [] + Join([w] + ws, " ") == Join([w] + ws, " ");
  }

  /** A single word of small letters is its own kebab case: `foofoofoo` stays `foofoofoo`. */
  lemma KebabCasedOfLowerWord(w: string)
    requires IsLowerWord(w)
    ensures KebabCased(w) == w
  {
    PlusLowerOfPlain(w, []);
    assert w + [] == w;
    assert Join([w], " ") == w && Join([w], "-") == w;
    assert [] + Join([w], " ") == w;
    KebabCasedOfSpacedWords(w, [], [w]);
  }

  /**
   * An acronym in front of camel-joined small words is a word of its own:
   * `HTTPServer` becomes `http-server`.
   */
  lemma KebabCasedOfAcronym(run: string, ws: seq<string>)
    requires |run| >= 2 && forall i :: 0 <= i < |run| ==> IsAsciiUpper(run[i])
    requires |ws| > 0 && forall i :: 0 <= i < |ws| ==> IsLowerWord(ws[i])
    ensures KebabCased(run + PascalJoined(ws)) == Join([LowerAll(run)] + ws, "-")
  {
    var low := LowerAll(run);
    var all := [low] + ws;
    LowerAllOfAcronym(run);
    LowerWordsCons(low, ws);
    RespacedOfAcronym(run, ws);
    JoinCons(low, ws, " ");
    KebabCasedOfRespaced(run + PascalJoined(ws), " ", all);
  }

  lemma LowerAllOfAcronym(run: string)
    requires |run| >= 2 && forall i :: 0 <= i < |run| ==> IsAsciiUpper(run[i])
    ensures IsLowerWord(LowerAll(run))
  {
  }

  /** Both rewrites of an acronym before camel-joined small words. */
  lemma RespacedOfAcronym(run: string, ws: seq<string>)
    requires |run| >= 2 && forall i :: 0 <= i < |run| ==> IsAsciiUpper(run[i])
    requires |ws| > 0 && forall i :: 0 <= i < |ws| ==> IsLowerWord(ws[i])
    ensures SpacedCapitals(PlusLower(run + PascalJoined(ws))) == " " + (LowerAll(run) + " " + Join(ws, " "))
  {
    var j := Join(ws, " ");
    assert PascalJoined(ws)[0] == Upper(ws[0][0]);
    PlusLowerOfRun(run, PascalJoined(ws));
    PlusLowerOfPascalJoined(ws);
    CapitalRunsSpacedOfRun(run, " " + j, false);
    CapitalRunsSpacedAfterRun(" " + j);
    SpacedCapitalsOfSpacedWords(" ", ws);
    SpaceLedPair(LowerAll(run), j);
  }

  lemma SpaceLedPair(x: string, y: string)
    ensures [' '] + x + (" " + y) == " " + (x + " " + y)
  {
  }

  /**
   * A small word, a separator other than whitespace, then a small word and
   * camel-joined small words: the separator becomes a dash like the word
   * boundaries do, so `lo_dashBarBaz` becomes `lo-dash-bar-baz`.
   */
  lemma KebabCasedOfSeparated(a: string, c: char, w: string, ws: seq<string>)
    requires IsLowerWord(a) && IsSeparator(c) && !IsWhitespace(c) && IsLowerWord(w)
    requires |ws| > 0 && forall i :: 0 <= i < |ws| ==> IsLowerWord(ws[i])
    ensures KebabCased(a + [c] + (w + PascalJoined(ws))) == Join([a, w] + ws, "-")
  {
    var s := a + [c] + (w + PascalJoined(ws));
    var tail := [w] + ws;
    LowerWordsCons(w, ws);
    SeparatedRewrites(a, c, w, ws);
    SeparatedPieces(a, c, tail);
    LowerWordsCons(a, tail);
    WordsOfLowerWords([a] + tail);
    KebabCasedWords(s);
    ConsPair(a, w, ws);
  }

  lemma ConsPair<T>(x: T, y: T, zs: seq<T>)
    ensures [x] + ([y] + zs) == [x, y] + zs
  {
  }

  /** A small word in front of small words keeps them all small words. */
  lemma LowerWordsCons(w: string, ws: seq<string>)
    requires IsLowerWord(w) && forall i :: 0 <= i < |ws| ==> IsLowerWord(ws[i])
    ensures forall i :: 0 <= i < |[w] + ws| ==> IsLowerWord(([w] + ws)[i])
  {
    forall i | 0 <= i < |[w] + ws| ensures IsLowerWord(([w] + ws)[i]) {
      if i > 0 {
        assert ([w] + ws)[i] == ws[i - 1];
      }
    }
  }

  /** Small words are all non-empty, so they are their own words. */
  lemma WordsOfLowerWords(ps: seq<string>)
    requires forall i :: 0 <= i < |ps| ==> IsLowerWord(ps[i])
    ensures Words(ps) == ps
  {
    WordsOfNonEmpty(ps);
  }

  /** Neither rewrite touches a small word, a separator and camel-joined small words. */
  lemma SeparatedRewrites(a: string, c: char, w: string, ws: seq<string>)
    requires IsLowerWord(a) && IsSeparator(c) && !IsWhitespace(c) && IsLowerWord(w)
    requires |ws| > 0 && forall i :: 0 <= i < |ws| ==> IsLowerWord(ws[i])
    requires forall i :: 0 <= i < |[w] + ws| ==> IsLowerWord(([w] + ws)[i])
    ensures PlusLower(a + [c] + (w + PascalJoined(ws))) == a + [c] + Join([w] + ws, " ")
    ensures SpacedCapitals(a + [c] + Join([w] + ws, " ")) == a + [c] + Join([w] + ws, " ")
  {
    var p := a + [c];
    WordThenSeparatorPlain(a, c);
    PlusLowerOfCamelJoined(w, ws);
    PlusLowerOfPlainPrefix(p, w + PascalJoined(ws), Join([w] + ws, " "));
    SpacedWordsShape([w] + ws);
    SpacedCapitalsOfPlainPair(p, Join([w] + ws, " "));
  }

  /** A small word and a separator hold no capital. */
  lemma WordThenSeparatorPlain(a: string, c: char)
    requires IsLowerWord(a) && IsSeparator(c)
    ensures forall i :: 0 <= i < |a + [c]| ==> !IsCapital((a + [c])[i])
    ensures AllChars(a + [c], NotCapital)
  {
    forall i | 0 <= i < |a + [c]| ensures !IsCapital((a + [c])[i]) {
      if i < |a| {
        assert (a + [c])[i] == a[i];
      }
    }
  }

  lemma PlusLowerOfPlainPrefix(p: string, t: string, u: string)
    requires forall i :: 0 <= i < |p| ==> !IsCapital(p[i])
    requires PlusLower(t) == [] + u
    ensures PlusLower(p + t) == p + u
  {
    PlusLowerOfPlain(p, t);
    assert [] + u == u;
  }

  lemma SpacedCapitalsOfPlainPair(p: string, j: string)
    requires AllChars(p, NotCapital) && AllChars(j, NotCapital)
    ensures SpacedCapitals(p + j) == p + j
  {
    AllCharsOfAppend(p, j, NotCapital);
    SpacedCapitalsOfPlain(p + j);
  }

  lemma SeparatedPieces(a: string, c: char, tail: seq<string>)
    requires IsLowerWord(a) && IsSeparator(c) && !IsWhitespace(c)
    requires |tail| > 0 && forall i :: 0 <= i < |tail| ==> IsLowerWord(tail[i])
    ensures Split(Trim(a + [c] + Join(tail, " "))) == [a] + tail
  {
    var j := Join(tail, " ");
    JoinedWordsEdges(tail);
    LowerWordEdges(a);
    SplitOfWordBefore(a, c, j, tail);
    SeparatedTrim(a, [c], j);
  }

  /** A small word has no separator and neither starts nor ends with one. */
  lemma LowerWordEdges(w: string)
    requires IsLowerWord(w)
    ensures NoSeparator(w) && |w| > 0 && !IsSeparator(w[0]) && !IsSeparator(w[|w| - 1])
  {
  }

  /** Small words joined with spaces split back into them and start and end with letters. */
  lemma JoinedWordsEdges(ws: seq<string>)
    requires |ws| > 0 && forall i :: 0 <= i < |ws| ==> IsLowerWord(ws[i])
    ensures |Join(ws, " ")| > 0 && Split(Join(ws, " ")) == ws
    ensures !IsSeparator(Join(ws, " ")[0]) && !IsSeparator(Join(ws, " ")[|Join(ws, " ")| - 1])
  {
    SpacedWordsShape(ws);
    JoinHead(ws, " ");
    LowerWordEdges(ws[0]);
    JoinLast(ws, " ");
    LowerWordEdges(ws[|ws| - 1]);
  }

  lemma SeparatedTrim(a: string, seps: string, j: string)
    requires |a| > 0 && !IsSeparator(a[0]) && |j| > 0 && !IsSeparator(j[|j| - 1])
    ensures Trim(a + seps + j) == a + seps + j
  {
    var x := a + seps + j;
    assert x[0] == a[0] && x[|x| - 1] == j[|j| - 1];
    TrimOfUnpadded(x);
  }

  lemma SplitOfWordBefore(a: string, c: char, j: string, tail: seq<string>)
    requires |a| > 0 && NoSeparator(a) && IsSeparator(c)
    requires |j| > 0 && !IsSeparator(j[0]) && Split(j) == tail
    ensures Split(a + [c] + j) == [a] + tail
  {
    SplitOfAppend(a, [c], j);
    SplitOfWord(a);
  }

  /** The first case of the `kebabCase` test: `fooBarBaz` becomes `foo-bar-baz`. */
  lemma KebabCaseExample()
    ensures KebabCased("fooBarBaz") == "foo-bar-baz"
  {
    FooBarBazParts();
    KebabCasedOfCamelJoined("foo", ["bar", "baz"]);
    FooBarBazDashed();
  }

  lemma FooBarBazParts()
    ensures "foo" + PascalJoined(["bar", "baz"]) == "fooBarBaz"
    ensures IsLowerWord("foo") && IsLowerWord("bar") && IsLowerWord("baz")
    ensures forall i :: 0 <= i < |["bar", "baz"]| ==> IsLowerWord(["bar", "baz"][i])
  {
    BarBazJoined();
  }

  lemma BarBazJoined()
    ensures PascalJoined(["bar", "baz"]) == "BarBaz"
  {
    assert ["bar", "baz"][1..] == ["baz"];
    assert ["baz"][1..] == [];
    assert UpperFirst("bar") == "Bar";
    assert UpperFirst("baz") == "Baz";
  }

  lemma FooBarBazDashed()
    ensures Join(["foo"] + ["bar", "baz"], "-") == "foo-bar-baz"
  {
    assert ["foo"] + ["bar", "baz"] == ["foo", "bar", "baz"];
    assert ["foo", "bar", "baz"][1..] == ["bar", "baz"];
    assert ["bar", "baz"][1..] == ["baz"];
  }

  /** The second case of the `kebabCase` test: `foofoofoo` stays `foofoofoo`. */
  lemma KebabCaseWordExample()
    ensures KebabCased("foofoofoo") == "foofoofoo"
  {
    assert IsLowerWord("foofoofoo");
    KebabCasedOfLowerWord("foofoofoo");
  }

  /** The third case of the `kebabCase` test: `BarBarBaz` becomes `bar-bar-baz`. */
  lemma KebabCasePascalExample()
    ensures KebabCased("BarBarBaz") == "bar-bar-baz"
  {
    BarBarBazParts();
    KebabCasedOfPascalJoined(["bar", "bar", "baz"]);
    BarBarBazDashed();
  }

  lemma BarBarBazParts()
    ensures PascalJoined(["bar", "bar", "baz"]) == "BarBarBaz"
    ensures forall i :: 0 <= i < |["bar", "bar", "baz"]| ==> IsLowerWord(["bar", "bar", "baz"][i])
  {
    assert ["bar", "bar", "baz"][1..] == ["bar", "baz"];
    BarBazJoined();
    assert UpperFirst("bar") == "Bar";
  }

  lemma BarBarBazDashed()
    ensures Join(["bar", "bar", "baz"], "-") == "bar-bar-baz"
  {
    assert ["bar", "bar", "baz"][1..] == ["bar", "baz"];
    assert ["bar", "baz"][1..] == ["baz"];
  }

  /** The last case of the `kebabCase` test: `lo_dashBarBaz` becomes `lo-dash-bar-baz`. */
  lemma KebabCaseSeparatorExample()
    ensures KebabCased("lo_dashBarBaz") == "lo-dash-bar-baz"
  {
    LoDashParts();
    KebabCasedOfSeparated("lo", '_', "dash", ["bar", "baz"]);
    LoDashDashed();
  }

  lemma LoDashParts()
    ensures "lo" + ['_'] + ("dash" + PascalJoined(["bar", "baz"])) == "lo_dashBarBaz"
    ensures IsLowerWord("lo") && IsSeparator('_') && !IsWhitespace('_') && IsLowerWord("dash")
    ensures forall i :: 0 <= i < |["bar", "baz"]| ==> IsLowerWord(["bar", "baz"][i])
  {
    BarBazJoined();
  }

  lemma LoDashDashed()
    ensures Join(["lo", "dash"] + ["bar", "baz"], "-") == "lo-dash-bar-baz"
  {
    assert ["lo", "dash"] + ["bar", "baz"] == ["lo", "dash", "bar", "baz"];
    assert ["lo", "dash", "bar", "baz"][1..] == ["dash", "bar", "baz"];
    assert ["dash", "bar", "baz"][1..] == ["bar", "baz"];
    assert ["bar", "baz"][1..] == ["baz"];
  }

  /** Unlike `snakeCase`, an acronym is split from the word after it: `HTTPServer` becomes `http-server`. */
  lemma KebabCaseAcronymExample()
    ensures KebabCased("HTTPServer") == "http-server"
  {
    HttpServerKebabParts();
    KebabCasedOfAcronym("HTTP", ["server"]);
    HttpServerDashed();
  }

  lemma HttpServerKebabParts()
    ensures "HTTP" + PascalJoined(["server"]) == "HTTPServer"
    ensures forall i :: 0 <= i < |"HTTP"| ==> IsAsciiUpper("HTTP"[i])
    ensures forall i :: 0 <= i < |["server"]| ==> IsLowerWord(["server"][i])
  {
    assert ["server"][1..] == [];
    assert UpperFirst("server") == "Server";
  }

  lemma HttpServerDashed()
    ensures Join([LowerAll("HTTP")] + ["server"], "-") == "http-server"
  {
    assert LowerAll("HTTP") == "http";
    assert ["http"] + ["server"] == ["http", "server"];
    assert ["http", "server"][1..] == ["server"];
  }

  /** The test of `kebabCasePropertes`: `bigWords` becomes `big-words`. */
  lemma KebabCaseBigWordsExample()
    ensures KebabCased("bigWords") == "big-words"
  {
    BigWordsKebabParts();
    KebabCasedOfCamelJoined("big", ["words"]);
    BigWordsDashed();
  }

  lemma BigWordsKebabParts()
    ensures "big" + PascalJoined(["words"]) == "bigWords"
    ensures IsLowerWord("big")
    ensures forall i :: 0 <= i < |["words"]| ==> IsLowerWord(["words"][i])
  {
    assert ["words"][1..] == [];
    assert UpperFirst("words") == "Words";
  }

  lemma BigWordsDashed()
    ensures Join(["big"] + ["words"], "-") == "big-words"
  {
    assert ["big"] + ["words"] == ["big", "words"];
    assert ["big", "words"][1..] == ["words"];
  }
}
