/**
 * The JavaScript string operations the core is built from, as functions on
 * `seq<char>`: `String.prototype.split` by the word-separator class and by
 * "\n", `Array.prototype.join`, `trim`, and `replace`/`replaceAll` with a
 * literal search string (including the global regular expressions whose
 * pattern is a fixed string).
 */
module Text {
  import opened Chars

  datatype Option<T> = None | Some(value: T)

  /** The length of the longest prefix of `s` whose characters all satisfy `p`. */
  function Span(s: string, p: char -> bool): (n: nat)
    ensures n <= |s|
    ensures forall i :: 0 <= i < n ==> p(s[i])
    ensures n < |s| ==> !p(s[n])
  {
    if |s| == 0 || !p(s[0]) then 0 else 1 + Span(s[1..], p)
  }

  predicate NoSeparator(s: string) {
    forall i :: 0 <= i < |s| ==> !IsSeparator(s[i])
  }

  predicate AllSeparators(s: string) {
    forall i :: 0 <= i < |s| ==> IsSeparator(s[i])
  }

  predicate AllWhitespace(s: string) {
    forall i :: 0 <= i < |s| ==> IsWhitespace(s[i])
  }

  /** `s` with every word separator removed. */
  function Letters(s: string): (r: string)
    ensures |r| <= |s|
  {
    if |s| == 0 then [] else (if IsSeparator(s[0]) then [] else [s[0]]) + Letters(s[1..])
  }

  lemma {:induction false} LettersOfAppend(a: string, b: string)
    ensures Letters(a + b) == Letters(a) + Letters(b)
  {
    if |a| == 0 {
      assert a + b == b;
    } else {
      assert (a + b)[1..] == a[1..] + b;
      LettersOfAppend(a[1..], b);
    }
  }

  /** What remains after removing separators holds no separator. */
  lemma {:induction false} LettersAreWords(s: string)
    ensures NoSeparator(Letters(s))
  {
    if |s| > 0 {
      LettersAreWords(s[1..]);
      var h := if IsSeparator(s[0]) then [] else [s[0]];
      assert Letters(s) == h + Letters(s[1..]);
      assert forall i :: |h| <= i < |Letters(s)| ==> Letters(s)[i] == Letters(s[1..])[i - |h|];
    }
  }

  lemma {:induction false} LettersOfWord(s: string)
    requires NoSeparator(s)
    ensures Letters(s) == s
  {
    if |s| > 0 {
      LettersOfWord(s[1..]);
    }
  }

  lemma {:induction false} LettersOfSeparators(s: string)
    requires AllSeparators(s)
    ensures Letters(s) == []
  {
    if |s| > 0 {
      LettersOfSeparators(s[1..]);
    }
  }

  /** The concatenation of a sequence of strings: `join("")`. */
  function Concat(ws: seq<string>): string {
    if |ws| == 0 then [] else ws[0] + Concat(ws[1..])
  }

  lemma {:induction false} ConcatOfAppend(a: seq<string>, b: seq<string>)
    ensures Concat(a + b) == Concat(a) + Concat(b)
  {
    if |a| == 0 {
      assert a + b == b;
    } else {
      assert (a + b)[1..] == a[1..] + b;
      ConcatOfAppend(a[1..], b);
    }
  }

  /** `ws.join(sep)`. */
  function Join(ws: seq<string>, sep: string): string {
    if |ws| == 0 then []
    else if |ws| == 1 then ws[0]
    else ws[0] + sep + Join(ws[1..], sep)
  }

  lemma {:induction false} JoinOfAppend(a: seq<string>, b: seq<string>, sep: string)
    requires |a| > 0 && |b| > 0
    ensures Join(a + b, sep) == Join(a, sep) + sep + Join(b, sep)
  {
    if |a| == 1 {
      assert (a + b)[1..] == b;
    } else {
      assert (a + b)[1..] == a[1..] + b;
      JoinOfAppend(a[1..], b, sep);
    }
  }

  /** Joining with separator characters loses nothing but separators. */
  lemma {:induction false} LettersOfJoin(ws: seq<string>, sep: string)
    requires AllSeparators(sep)
    ensures Letters(Join(ws, sep)) == Letters(Concat(ws))
  {
    if |ws| == 1 {
      assert Concat(ws) == ws[0] + Concat([]);
      assert Concat(ws) == ws[0];
    } else if |ws| > 1 {
      LettersOfJoin(ws[1..], sep);
      LettersOfAppend(ws[0] + sep, Join(ws[1..], sep));
      LettersOfAppend(ws[0], sep);
      LettersOfSeparators(sep);
      LettersOfAppend(ws[0], Concat(ws[1..]));
    }
  }

  lemma AppendAssoc<T>(x: seq<T>, y: seq<T>, z: seq<T>)
    ensures x + (y + z) == (x + y) + z
  {
  }

  /** Putting a character in front of the first piece puts it in front of the joined text. */
  lemma JoinConsHead(c: char, x: string, rest: seq<string>, sep: string)
    ensures Join([[c] + x] + rest, sep) == [c] + Join([x] + rest, sep)
  {
    if |rest| > 0 {
      assert ([[c] + x] + rest)[1..] == rest;
      assert ([x] + rest)[1..] == rest;
    }
  }

  /**
   * `s.split(wordSeparators)`: the pieces between maximal runs of separators,
   * with an empty first piece when `s` starts with a separator and an empty
   * last piece when it ends with one; `""` splits into `[""]`.
   */
  function Split(s: string): (ws: seq<string>)
    ensures |ws| >= 1
  {
    if |s| == 0 then [[]]
    else
      var rest := Split(s[1..]);
      if !IsSeparator(s[0]) then [[s[0]] + rest[0]] + rest[1..]
      else if |s| > 1 && IsSeparator(s[1]) then rest
      else [[]] + rest
  }

  /** No piece of a split holds a separator. */
  lemma {:induction false} SplitPiecesAreWords(s: string)
    ensures forall i :: 0 <= i < |Split(s)| ==> NoSeparator(Split(s)[i])
  {
    if |s| > 0 {
      SplitPiecesAreWords(s[1..]);
      var rest := Split(s[1..]);
      if !IsSeparator(s[0]) {
        var ws := Split(s);
        assert ws[0] == [s[0]] + rest[0];
        assert forall i :: 1 <= i < |ws| ==> ws[i] == rest[i];
      }
    }
  }

  /** The pieces of a split hold exactly the characters that are not separators. */
  lemma {:induction false} SplitKeepsLetters(s: string)
    ensures Concat(Split(s)) == Letters(s)
  {
    if |s| > 0 {
      SplitKeepsLetters(s[1..]);
      var rest := Split(s[1..]);
      if !IsSeparator(s[0]) {
        var ws := Split(s);
        assert ws[1..] == rest[1..];
        assert rest == [rest[0]] + rest[1..];
        assert Concat(ws) == [s[0]] + (rest[0] + Concat(rest[1..]));
      } else if !(|s| > 1 && IsSeparator(s[1])) {
        assert ([[]] + rest)[1..] == rest;
      }
    }
  }

  /** A text without separators is a single piece. */
  lemma {:induction false} SplitOfWord(s: string)
    requires NoSeparator(s)
    ensures Split(s) == [s]
  {
    if |s| > 0 {
      SplitOfWord(s[1..]);
      assert [s[0]] + s[1..] == s;
    }
  }

  /** Only the first and the last piece of a split can be empty. */
  lemma {:induction false} SplitInnerPiecesNonEmpty(s: string)
    ensures forall i :: 0 < i < |Split(s)| - 1 ==> |Split(s)[i]| > 0
  {
    if |s| > 0 {
      SplitInnerPiecesNonEmpty(s[1..]);
      var rest := Split(s[1..]);
      var ws := Split(s);
      if !IsSeparator(s[0]) {
        assert forall i :: 1 <= i < |ws| ==> ws[i] == rest[i];
      } else if !(|s| > 1 && IsSeparator(s[1])) {
        assert forall i :: 1 <= i < |ws| ==> ws[i] == rest[i - 1];
        if |s| > 1 {
          SplitHead(s[1..]);
        }
      }
    }
  }

  /** A run of separators between two words splits the text in two. */
  lemma {:induction false} SplitOfSeparators(seps: string, b: string)
    requires |seps| > 0 && AllSeparators(seps)
    requires |b| == 0 || !IsSeparator(b[0])
    ensures Split(seps + b) == [[]] + Split(b)
  {
    var s := seps + b;
    assert s[1..] == seps[1..] + b;
    if |seps| > 1 {
      SplitOfSeparators(seps[1..], b);
    } else {
      assert s[1..] == b;
    }
  }

  /**
   * Splitting at a run of separators that is neither preceded nor followed
   * by another separator: the pieces before it, then the pieces after it.
   */
  lemma {:induction false} SplitOfAppend(a: string, seps: string, b: string)
    requires |seps| > 0 && AllSeparators(seps)
    requires |a| == 0 || !IsSeparator(a[|a| - 1])
    requires |b| == 0 || !IsSeparator(b[0])
    ensures Split(a + seps + b) == Split(a) + Split(b)
  {
    if |a| == 0 {
      assert a + seps + b == seps + b;
      SplitOfSeparators(seps, b);
    } else {
      var c, a' := a[0], a[1..];
      var s := a + seps + b;
      assert s == [c] + (a' + seps + b);
      assert s[1..] == a' + seps + b;
      SplitOfAppend(a', seps, b);
      var ra, rb := Split(a'), Split(b);
      if !IsSeparator(c) {
        ConsFirstPiece(c, ra, rb);
      } else {
        assert |a'| > 0;
        assert s[1] == a'[0];
        if !IsSeparator(a'[0]) {
          AppendAssoc([[]], ra, rb);
        }
      }
    }
  }

  /** Putting a character in front of the first piece (or line) of a list. */
  lemma ConsFirstPiece(c: char, ra: seq<string>, rb: seq<string>)
    requires |ra| > 0
    ensures [[c] + (ra + rb)[0]] + (ra + rb)[1..] == ([[c] + ra[0]] + ra[1..]) + rb
  {
    assert (ra + rb)[1..] == ra[1..] + rb;
  }

  /** A split starts with a piece beginning with the first character of the text, or with an empty piece when that character is a separator. */
  lemma {:induction false} SplitHead(s: string)
    requires |s| > 0
    ensures !IsSeparator(s[0]) ==> |Split(s)[0]| > 0 && Split(s)[0][0] == s[0]
    ensures IsSeparator(s[0]) ==> |Split(s)[0]| == 0
  {
    if IsSeparator(s[0]) && |s| > 1 && IsSeparator(s[1]) {
      SplitHead(s[1..]);
    }
  }

  /** `s.split("\n")`. */
  function SplitLines(s: string): (ls: seq<string>)
    ensures |ls| >= 1
  {
    if |s| == 0 then [[]]
    else
      var rest := SplitLines(s[1..]);
      if s[0] == '\n' then [[]] + rest else [[s[0]] + rest[0]] + rest[1..]
  }

  /** `lines.join("\n")`. */
  function JoinLines(ls: seq<string>): string {
    Join(ls, "\n")
  }

  /** No line holds a line break. */
  lemma {:induction false} SplitLinesHaveNoBreak(s: string)
    ensures forall i :: 0 <= i < |SplitLines(s)| ==> '\n' !in SplitLines(s)[i]
  {
    if |s| > 0 {
      SplitLinesHaveNoBreak(s[1..]);
      var rest := SplitLines(s[1..]);
      if s[0] != '\n' {
        var ls := SplitLines(s);
        assert ls[0] == [s[0]] + rest[0];
        assert forall i :: 1 <= i < |ls| ==> ls[i] == rest[i];
      }
    }
  }

  /** Splitting on "\n" and joining with "\n" gives the text back. */
  lemma {:induction false} JoinSplitLines(s: string)
    ensures JoinLines(SplitLines(s)) == s
  {
    if |s| > 0 {
      JoinSplitLines(s[1..]);
      var rest := SplitLines(s[1..]);
      if s[0] == '\n' {
        assert ([[]] + rest)[1..] == rest;
        assert Join([[]] + rest, "\n") == [] + "\n" + Join(rest, "\n");
      } else {
        assert rest == [rest[0]] + rest[1..];
        JoinConsHead(s[0], rest[0], rest[1..], "\n");
      }
    }
  }

  /** A text that starts with a line break starts with an empty line. */
  lemma SplitLinesAfterBreak(t: string, ls: seq<string>)
    requires SplitLines(t) == ls
    ensures SplitLines("\n" + t) == [""] + ls
  {
    SplitLinesCons('\n', t);
  }

  /** The empty text is one empty line. */
  lemma SplitLinesOfEmpty()
    ensures SplitLines([]) == [[]]
  {
  }

  /** A text without line breaks is a single line. */
  lemma {:induction false} SplitLinesOfLine(s: string)
    requires '\n' !in s
    ensures SplitLines(s) == [s]
  {
    if |s| > 0 {
      SplitLinesOfLine(s[1..]);
      assert [s[0]] + s[1..] == s;
    }
  }

  /** One step of a line split: the first character either breaks the line or starts the first line. */
  lemma SplitLinesCons(c: char, t: string)
    ensures SplitLines([c] + t) == if c == '\n' then [[]] + SplitLines(t)
                                   else [[c] + SplitLines(t)[0]] + SplitLines(t)[1..]
  {
    assert ([c] + t)[1..] == t;
  }

  /** A line break splits a text into the lines before it and the lines after it. */
  lemma {:induction false} SplitLinesOfAppend(a: string, b: string)
    ensures SplitLines(a + "\n" + b) == SplitLines(a) + SplitLines(b)
  {
    if |a| == 0 {
      assert a + "\n" + b == ['\n'] + b;
      SplitLinesCons('\n', b);
    } else {
      var c, a' := a[0], a[1..];
      assert a + "\n" + b == [c] + (a' + "\n" + b);
      assert a == [c] + a';
      SplitLinesCons(c, a' + "\n" + b);
      SplitLinesCons(c, a');
      SplitLinesOfAppend(a', b);
      var ra, rb := SplitLines(a'), SplitLines(b);
      if c == '\n' {
        AppendAssoc([[]], ra, rb);
      } else {
        ConsFirstPiece(c, ra, rb);
      }
    }
  }

  /** Joining lines free of "\n" and splitting again gives the lines back. */
  lemma {:induction false} SplitJoinLines(ls: seq<string>)
    requires |ls| >= 1
    requires forall i :: 0 <= i < |ls| ==> '\n' !in ls[i]
    ensures SplitLines(JoinLines(ls)) == ls
  {
    SplitLinesOfLine(ls[0]);
    if |ls| > 1 {
      SplitJoinLines(ls[1..]);
      SplitLinesOfAppend(ls[0], JoinLines(ls[1..]));
      assert [ls[0]] + ls[1..] == ls;
    }
  }

  /** `s.trimStart()`: `s` without its leading whitespace. */
  function TrimStart(s: string): (r: string)
    ensures |r| <= |s| && r == s[|s| - |r|..]
    ensures |r| > 0 ==> !IsWhitespace(r[0])
  {
    if |s| > 0 && IsWhitespace(s[0]) then TrimStart(s[1..]) else s
  }

  /** `s.trimEnd()`: `s` without its trailing whitespace. */
  function TrimEnd(s: string): (r: string)
    ensures |r| <= |s| && r == s[..|r|]
    ensures |r| > 0 ==> !IsWhitespace(r[|r| - 1])
  {
    if |s| > 0 && IsWhitespace(s[|s| - 1]) then TrimEnd(s[..|s| - 1]) else s
  }

  /** `s.trim()`: `s` without its leading and its trailing whitespace. */
  function Trim(s: string): (r: string)
    ensures |r| <= |s|
    ensures |r| > 0 ==> !IsWhitespace(r[0]) && !IsWhitespace(r[|r| - 1])
  {
    var t := TrimStart(s);
    var r := TrimEnd(t);
    assert |r| > 0 ==> r[0] == t[0];
    r
  }

  /** Only whitespace is removed from the front. */
  lemma {:induction false} TrimStartDropsWhitespace(s: string)
    ensures AllWhitespace(s[..|s| - |TrimStart(s)|])
  {
    if |s| > 0 && IsWhitespace(s[0]) {
      TrimStartDropsWhitespace(s[1..]);
      assert s[..|s| - |TrimStart(s)|] == [s[0]] + s[1..][..|s| - 1 - |TrimStart(s)|];
    }
  }

  /** Only whitespace is removed from the back. */
  lemma {:induction false} TrimEndDropsWhitespace(s: string)
    ensures AllWhitespace(s[|TrimEnd(s)|..])
  {
    if |s| > 0 && IsWhitespace(s[|s| - 1]) {
      TrimEndDropsWhitespace(s[..|s| - 1]);
      assert s[|TrimEnd(s)|..] == s[..|s| - 1][|TrimEnd(s)|..] + [s[|s| - 1]];
    }
  }

  /** Whitespace in front of a text that starts with something else is exactly what `trimStart` removes. */
  lemma {:induction false} TrimStartOfPadded(a: string, y: string)
    requires AllWhitespace(a)
    requires |y| > 0 && !IsWhitespace(y[0])
    ensures TrimStart(a + y) == y
  {
    if |a| == 0 {
      assert a + y == y;
    } else {
      assert (a + y)[0] == a[0];
      assert (a + y)[1..] == a[1..] + y;
      TrimStartOfPadded(a[1..], y);
    }
  }

  /** Whitespace after a text that ends with something else is exactly what `trimEnd` removes. */
  lemma {:induction false} TrimEndOfPadded(y: string, b: string)
    requires AllWhitespace(b)
    requires |y| > 0 && !IsWhitespace(y[|y| - 1])
    ensures TrimEnd(y + b) == y
  {
    if |b| == 0 {
      assert y + b == y;
    } else {
      assert (y + b)[|y + b| - 1] == b[|b| - 1];
      assert (y + b)[..|y + b| - 1] == y + b[..|b| - 1];
      TrimEndOfPadded(y, b[..|b| - 1]);
    }
  }

  /** Whitespace around a text that starts and ends with something else is exactly what trim removes. */
  lemma TrimOfPadded(a: string, x: string, b: string)
    requires AllWhitespace(a) && AllWhitespace(b)
    requires |x| > 0 && !IsWhitespace(x[0]) && !IsWhitespace(x[|x| - 1])
    ensures Trim(a + x + b) == x
  {
    assert a + x + b == a + (x + b);
    TrimStartOfPadded(a, x + b);
    TrimEndOfPadded(x, b);
  }

  /** Trimming loses no letters: it removes whitespace only. */
  lemma {:induction false} LettersOfTrim(s: string)
    ensures Letters(Trim(s)) == Letters(s)
  {
    LettersOfTrimStart(s);
    LettersOfTrimEnd(TrimStart(s));
  }

  lemma {:induction false} LettersOfTrimStart(s: string)
    ensures Letters(TrimStart(s)) == Letters(s)
  {
    if |s| > 0 && IsWhitespace(s[0]) {
      LettersOfTrimStart(s[1..]);
    }
  }

  lemma {:induction false} LettersOfTrimEnd(s: string)
    ensures Letters(TrimEnd(s)) == Letters(s)
  {
    if |s| > 0 && IsWhitespace(s[|s| - 1]) {
      var init := s[..|s| - 1];
      LettersOfTrimEnd(init);
      assert s == init + [s[|s| - 1]];
      LettersOfAppend(init, [s[|s| - 1]]);
      assert Letters([s[|s| - 1]]) == [] + Letters([]);
    }
  }

  /** Every character of `s` satisfies `p`. */
  predicate AllChars(s: string, p: char -> bool) {
    forall i :: 0 <= i < |s| ==> p(s[i])
  }

  lemma AllCharsOfAppend(a: string, b: string, p: char -> bool)
    ensures AllChars(a + b, p) <==> AllChars(a, p) && AllChars(b, p)
  {
    assert forall i :: 0 <= i < |b| ==> b[i] == (a + b)[|a| + i];
    assert forall i :: 0 <= i < |a| ==> a[i] == (a + b)[i];
    if AllChars(a, p) && AllChars(b, p) {
      forall i | 0 <= i < |a + b|
        ensures p((a + b)[i])
      {
        if i >= |a| {
          assert (a + b)[i] == b[i - |a|];
        }
      }
    }
  }

  /** Trimming keeps a property every character has. */
  lemma AllCharsOfTrim(s: string, p: char -> bool)
    requires AllChars(s, p)
    ensures AllChars(Trim(s), p)
  {
    var t := TrimStart(s);
    assert AllChars(t, p) by {
      assert forall i :: 0 <= i < |t| ==> t[i] == s[|s| - |t| + i];
    }
    var r := TrimEnd(t);
    assert forall i :: 0 <= i < |r| ==> r[i] == t[i];
  }

  /** The pieces of a split keep a property every character has. */
  lemma {:induction false} AllCharsOfSplit(s: string, p: char -> bool)
    requires AllChars(s, p)
    ensures forall i :: 0 <= i < |Split(s)| ==> AllChars(Split(s)[i], p)
  {
    if |s| > 0 {
      AllCharsOfSplit(s[1..], p);
      var rest := Split(s[1..]);
      if !IsSeparator(s[0]) {
        AllCharsOfAppend([s[0]], rest[0], p);
        var ws := Split(s);
        assert forall i :: 1 <= i < |ws| ==> ws[i] == rest[i];
      }
    }
  }

  /** Joining keeps a property every character of the pieces and of the separator has. */
  lemma {:induction false} AllCharsOfJoin(ws: seq<string>, sep: string, p: char -> bool)
    requires forall i :: 0 <= i < |ws| ==> AllChars(ws[i], p)
    requires AllChars(sep, p)
    ensures AllChars(Join(ws, sep), p)
  {
    if |ws| > 1 {
      AllCharsOfJoin(ws[1..], sep, p);
      AllCharsOfAppend(ws[0], sep, p);
      AllCharsOfAppend(ws[0] + sep, Join(ws[1..], sep), p);
    }
  }

  /** `s.startsWith(pat)`. */
  predicate StartsWith(s: string, pat: string)
    decreases |pat|
  {
    |pat| == 0 || (|s| > 0 && s[0] == pat[0] && StartsWith(s[1..], pat[1..]))
  }

  /** A text that starts with a pattern is at least as long and has it as its prefix. */
  lemma {:induction false} StartsWithPrefix(s: string, pat: string)
    requires StartsWith(s, pat)
    ensures |pat| <= |s| && s[..|pat|] == pat
    decreases |pat|
  {
    if |pat| > 0 {
      StartsWithPrefix(s[1..], pat[1..]);
      assert s[..|pat|] == [s[0]] + s[1..][..|pat| - 1];
      assert pat == [pat[0]] + pat[1..];
    }
  }

  /** Every text starts with itself, whatever follows. */
  lemma {:induction false} StartsWithAppend(pat: string, rest: string)
    ensures StartsWith(pat + rest, pat)
    decreases |pat|
  {
    if |pat| > 0 {
      assert (pat + rest)[1..] == pat[1..] + rest;
      StartsWithAppend(pat[1..], rest);
    }
  }

  /** A one-character pattern is matched by its character. */
  lemma StartsWithChar(s: string, c: char)
    ensures StartsWith(s, [c]) <==> |s| > 0 && s[0] == c
  {
    assert |[c][1..]| == 0;
  }

  /** A two-character pattern is matched by its two characters. */
  lemma StartsWithPair(s: string, pat: string)
    requires |pat| == 2
    ensures StartsWith(s, pat) <==> |s| >= 2 && s[0] == pat[0] && s[1] == pat[1]
  {
    if |s| >= 2 {
      assert s[1..][0] == s[1] && pat[1..][0] == pat[1];
      assert StartsWith(s[1..][1..], pat[1..][1..]);
      assert StartsWith(s[1..], pat[1..]) <==> s[1] == pat[1];
    }
  }

  /** `pat` occurs in `s` starting at index `i`. */
  predicate OccursAt(s: string, pat: string, i: nat) {
    i <= |s| && StartsWith(s[i..], pat)
  }

  lemma OccursAtTail(s: string, pat: string, j: nat)
    requires |s| > 0
    ensures OccursAt(s, pat, j + 1) <==> OccursAt(s[1..], pat, j)
  {
    if j + 1 <= |s| {
      assert s[j + 1..] == s[1..][j..];
    }
  }

  /** The index `s.indexOf(pat)` finds, or `None` for -1. */
  function FirstOccurrence(s: string, pat: string): (r: Option<nat>)
    ensures r.Some? ==> r.value + |pat| <= |s|
  {
    if StartsWith(s, pat) then StartsWithPrefix(s, pat); Some(0)
    else if |s| == 0 then None
    else
      match FirstOccurrence(s[1..], pat)
      case None => None
      case Some(i) => Some(i + 1)
  }

  /** The index found is an occurrence and no occurrence lies before it; `None` means there is no occurrence at all. */
  lemma {:induction false} FirstOccurrenceIsLeftmost(s: string, pat: string)
    ensures FirstOccurrence(s, pat).Some? ==> OccursAt(s, pat, FirstOccurrence(s, pat).value)
    ensures FirstOccurrence(s, pat).Some? ==>
              forall j :: 0 <= j < FirstOccurrence(s, pat).value ==> !OccursAt(s, pat, j)
    ensures FirstOccurrence(s, pat).None? ==> forall j :: 0 <= j <= |s| ==> !OccursAt(s, pat, j)
  {
    assert s[0..] == s;
    if !StartsWith(s, pat) && |s| > 0 {
      FirstOccurrenceIsLeftmost(s[1..], pat);
      forall j | 0 < j <= |s| ensures OccursAt(s, pat, j) <==> OccursAt(s[1..], pat, j - 1) {
        OccursAtTail(s, pat, j - 1);
      }
    }
  }

  /** `s.replace(pat, rep)` with a string pattern and no `$` patterns in `rep`: the leftmost occurrence only. */
  function ReplaceFirst(s: string, pat: string, rep: string): string {
    match FirstOccurrence(s, pat)
    case None => s
    case Some(i) => s[..i] + rep + s[i + |pat|..]
  }

  /** `rep` before, between and after the characters of `s`: what `replaceAll("", rep)` does. */
  function Interpose(s: string, rep: string): string {
    if |s| == 0 then rep else rep + [s[0]] + Interpose(s[1..], rep)
  }

  /**
   * `s.replaceAll(pat, rep)` with a string pattern (also `s.replace(/pat/g, rep)`
   * when the regular expression is a fixed string), no `$` patterns in `rep`:
   * the occurrences are replaced left to right, each search resuming after the
   * previous occurrence.
   */
  function ReplaceAll(s: string, pat: string, rep: string): string
    decreases |s|
  {
    if |pat| == 0 then Interpose(s, rep)
    else if StartsWith(s, pat) then StartsWithPrefix(s, pat); rep + ReplaceAll(s[|pat|..], pat, rep)
    else if |s| == 0 then []
    else [s[0]] + ReplaceAll(s[1..], pat, rep)
  }

  /** Without an occurrence the global replace changes nothing. */
  lemma {:induction false} ReplaceAllNone(s: string, pat: string, rep: string)
    requires |pat| > 0 && FirstOccurrence(s, pat).None?
    ensures ReplaceAll(s, pat, rep) == s
  {
    if |s| > 0 {
      assert !StartsWith(s, pat);
      FirstOccurrenceStep(s, pat);
      ReplaceAllNone(s[1..], pat, rep);
      ReplaceAllStep(s, pat, rep);
      assert [s[0]] + s[1..] == s;
    }
  }

  /**
   * The global replace is the leftmost occurrence replaced and the search
   * resumed after it.
   */
  lemma {:induction false} ReplaceAllAt(s: string, pat: string, rep: string, i: nat)
    requires |pat| > 0 && FirstOccurrence(s, pat) == Some(i)
    ensures i + |pat| <= |s|
    ensures ReplaceAll(s, pat, rep) == s[..i] + rep + ReplaceAll(s[i + |pat|..], pat, rep)
  {
    if i == 0 {
      ReplaceAllAtStart(s, pat, rep);
    } else {
      var t := s[1..];
      FirstOccurrenceLater(s, pat, i);
      ReplaceAllAt(t, pat, rep, i - 1);
      ReplaceAllStep(s, pat, rep);
      var y := ReplaceAll(t[i - 1 + |pat|..], pat, rep);
      SlicesOfTail(s, i - 1, |pat|, rep, y, ReplaceAll(s, pat, rep), ReplaceAll(t, pat, rep));
    }
  }

  lemma ReplaceAllAtStart(s: string, pat: string, rep: string)
    requires |pat| > 0 && FirstOccurrence(s, pat) == Some(0)
    ensures |pat| <= |s|
    ensures ReplaceAll(s, pat, rep) == s[..0] + rep + ReplaceAll(s[|pat|..], pat, rep)
  {
    if !StartsWith(s, pat) {
      assert |s| > 0;
      match FirstOccurrence(s[1..], pat)
      case None =>
      case Some(j) => assert false;
    }
    ReplaceAllMatch(s, pat, rep);
    var x := ReplaceAll(s[|pat|..], pat, rep);
    assert s[..0] == [];
    assert s[..0] + rep + x == rep + x;
  }

  /** An occurrence that is not at the start is one place further on in the tail. */
  lemma FirstOccurrenceLater(s: string, pat: string, i: nat)
    requires |pat| > 0 && FirstOccurrence(s, pat) == Some(i) && i > 0
    ensures |s| > 0 && !StartsWith(s, pat)
    ensures FirstOccurrence(s[1..], pat) == Some(i - 1)
  {
    assert !StartsWith(s, pat) && |s| > 0;
    FirstOccurrenceStep(s, pat);
  }

  /** Slices of `s[1..]` are slices of `s` shifted by one. */
  lemma SlicesOfTail(s: string, i: nat, k: nat, x: string, y: string, r: string, q: string)
    requires |s| > 0 && i + k < |s|
    requires r == [s[0]] + q && q == s[1..][..i] + x + y
    ensures s[1..][i + k..] == s[i + 1 + k..]
    ensures r == s[..i + 1] + x + y
  {
    assert [s[0]] + s[1..][..i] == s[..i + 1];
  }

  lemma ReplaceAllStep(s: string, pat: string, rep: string)
    requires |pat| > 0 && |s| > 0 && !StartsWith(s, pat)
    ensures ReplaceAll(s, pat, rep) == [s[0]] + ReplaceAll(s[1..], pat, rep)
  {
  }

  lemma FirstOccurrenceStep(s: string, pat: string)
    requires |s| > 0 && !StartsWith(s, pat)
    ensures FirstOccurrence(s[1..], pat).None? ==> FirstOccurrence(s, pat).None?
    ensures FirstOccurrence(s[1..], pat).Some? ==>
              FirstOccurrence(s, pat) == Some(FirstOccurrence(s[1..], pat).value + 1)
  {
  }

  /** Text before the first character of the pattern passes through a global replace untouched. */
  lemma {:induction false} ReplaceAllOfPrefix(a: string, b: string, pat: string, rep: string)
    requires |pat| > 0 && pat[0] !in a
    ensures ReplaceAll(a + b, pat, rep) == a + ReplaceAll(b, pat, rep)
  {
    if |a| > 0 {
      assert !StartsWith(a + b, pat) by {
        assert (a + b)[0] == a[0];
      }
      assert (a + b)[1..] == a[1..] + b;
      ReplaceAllOfPrefix(a[1..], b, pat, rep);
    } else {
      assert a + b == b;
    }
  }

  lemma ReplaceAllMatch(s: string, pat: string, rep: string)
    requires |pat| > 0 && StartsWith(s, pat)
    ensures |pat| <= |s|
    ensures ReplaceAll(s, pat, rep) == rep + ReplaceAll(s[|pat|..], pat, rep)
  {
    StartsWithPrefix(s, pat);
  }

  /** A global replace of a two-character pattern splits at a point no occurrence straddles. */
  lemma {:induction false} ReplaceAllOfAppend(a: string, b: string, pat: string, rep: string)
    requires |pat| == 2
    requires |b| == 0 || |a| == 0 || !(a[|a| - 1] == pat[0] && b[0] == pat[1])
    ensures ReplaceAll(a + b, pat, rep) == ReplaceAll(a, pat, rep) + ReplaceAll(b, pat, rep)
    decreases |a|
  {
    if |a| == 0 {
      assert a + b == b;
    } else if StartsWith(a + b, pat) {
      StartsWithPair(a + b, pat);
      StartsWithPair(a, pat);
      assert (a + b)[0] == a[0];
      assert |a| >= 2 by {
        if |a| == 1 {
          assert (a + b)[1] == b[0];
        }
      }
      assert (a + b)[1] == a[1];
      assert (a + b)[2..] == a[2..] + b;
      ReplaceAllMatch(a + b, pat, rep);
      ReplaceAllMatch(a, pat, rep);
      ReplaceAllOfAppend(a[2..], b, pat, rep);
      AppendAssoc(rep, ReplaceAll(a[2..], pat, rep), ReplaceAll(b, pat, rep));
    } else {
      StartsWithPair(a + b, pat);
      StartsWithPair(a, pat);
      assert (a + b)[0] == a[0];
      assert |a| >= 2 ==> (a + b)[1] == a[1];
      assert (a + b)[1..] == a[1..] + b;
      ReplaceAllStep(a + b, pat, rep);
      ReplaceAllStep(a, pat, rep);
      ReplaceAllOfAppend(a[1..], b, pat, rep);
      AppendAssoc([a[0]], ReplaceAll(a[1..], pat, rep), ReplaceAll(b, pat, rep));
    }
  }

  /** A text without the first character of the pattern is left alone by a global replace. */
  lemma ReplaceAllWithout(s: string, pat: string, rep: string)
    requires |pat| > 0 && pat[0] !in s
    ensures ReplaceAll(s, pat, rep) == s
  {
    ReplaceAllOfPrefix(s, [], pat, rep);
    assert s + [] == s;
  }

  /** Text before the first character of the pattern cannot hold its first occurrence. */
  lemma {:induction false} FirstOccurrenceOfPrefix(a: string, b: string, pat: string)
    requires |pat| > 0 && pat[0] !in a
    ensures FirstOccurrence(a + b, pat).None? <==> FirstOccurrence(b, pat).None?
    ensures FirstOccurrence(b, pat).Some? ==>
              FirstOccurrence(a + b, pat) == Some(|a| + FirstOccurrence(b, pat).value)
  {
    if |a| == 0 {
      assert a + b == b;
    } else {
      assert (a + b)[0] == a[0];
      assert (a + b)[1..] == a[1..] + b;
      FirstOccurrenceStep(a + b, pat);
      FirstOccurrenceOfPrefix(a[1..], b, pat);
    }
  }

  /** Text before the first character of the pattern passes through a single replace untouched. */
  lemma ReplaceFirstOfPrefix(a: string, b: string, pat: string, rep: string)
    requires |pat| > 0 && pat[0] !in a
    ensures ReplaceFirst(a + b, pat, rep) == a + ReplaceFirst(b, pat, rep)
  {
    FirstOccurrenceOfPrefix(a, b, pat);
    match FirstOccurrence(b, pat)
    case None =>
      assert FirstOccurrence(a + b, pat).None?;
      ReplaceFirstNone(a + b, pat, rep);
      ReplaceFirstNone(b, pat, rep);
    case Some(i) =>
      ReplaceFirstAfterPrefix(a, b, pat, rep, i);
  }

  lemma ReplaceFirstAfterPrefix(a: string, b: string, pat: string, rep: string, i: nat)
    requires FirstOccurrence(b, pat) == Some(i) && FirstOccurrence(a + b, pat) == Some(|a| + i)
    ensures ReplaceFirst(a + b, pat, rep) == a + ReplaceFirst(b, pat, rep)
  {
    ReplaceFirstAt(a + b, pat, rep, |a| + i);
    ReplaceFirstAt(b, pat, rep, i);
    SlicesAfterPrefix(a, b, i, |pat|, rep, ReplaceFirst(a + b, pat, rep), ReplaceFirst(b, pat, rep));
  }

  lemma ReplaceFirstNone(s: string, pat: string, rep: string)
    requires FirstOccurrence(s, pat).None?
    ensures ReplaceFirst(s, pat, rep) == s
  {
  }

  lemma ReplaceFirstAt(s: string, pat: string, rep: string, i: nat)
    requires FirstOccurrence(s, pat) == Some(i)
    ensures i + |pat| <= |s|
    ensures ReplaceFirst(s, pat, rep) == s[..i] + rep + s[i + |pat|..]
  {
  }

  /** Cutting `a + b` around a span of `b` leaves `a` in front. */
  lemma SlicesAfterPrefix(a: string, b: string, i: nat, k: nat, rep: string, r: string, q: string)
    requires i + k <= |b|
    requires r == (a + b)[..|a| + i] + rep + (a + b)[|a| + i + k..]
    requires q == b[..i] + rep + b[i + k..]
    ensures r == a + q
  {
    assert (a + b)[..|a| + i] == a + b[..i];
    assert (a + b)[|a| + i + k..] == b[i + k..];
  }

  /** A text that starts with the pattern has its first `|pat|` characters replaced. */
  lemma ReplaceFirstOfMatch(s: string, pat: string, rep: string)
    requires StartsWith(s, pat)
    ensures |pat| <= |s|
    ensures ReplaceFirst(s, pat, rep) == rep + s[|pat|..]
  {
    StartsWithPrefix(s, pat);
    assert FirstOccurrence(s, pat) == Some(0);
    assert s[..0] + rep == rep;
  }

  /** A text without the first character of the pattern is left alone by a single replace. */
  lemma ReplaceFirstWithout(s: string, pat: string, rep: string)
    requires |pat| > 0 && pat[0] !in s
    ensures ReplaceFirst(s, pat, rep) == s
  {
    FirstOccurrenceOfPrefix(s, [], pat);
    assert s + [] == s;
  }

  /** Replacing the empty string by the empty string changes nothing. */
  lemma {:induction false} InterposeNothing(s: string)
    ensures Interpose(s, []) == s
  {
    if |s| > 0 {
      InterposeNothing(s[1..]);
    }
  }

  /** `s` with every character failing `keep` removed. */
  function Filter(s: string, keep: char -> bool): (r: string)
    ensures forall i :: 0 <= i < |r| ==> keep(r[i])
  {
    if |s| == 0 then [] else (if keep(s[0]) then [s[0]] else []) + Filter(s[1..], keep)
  }

  /** Each character mapped by `f`. */
  function MapChars(s: string, f: char -> char): (r: string)
    ensures |r| == |s|
    ensures forall i :: 0 <= i < |s| ==> r[i] == f(s[i])
  {
    if |s| == 0 then [] else [f(s[0])] + MapChars(s[1..], f)
  }

  /** `s.toLowerCase()` within the one-to-one Latin-1 model. */
  function LowerAll(s: string): (r: string)
    ensures |r| == |s|
    ensures forall i :: 0 <= i < |s| ==> r[i] == Lower(s[i])
  {
    MapChars(s, Lower)
  }

  /** `a` and `b` hold the same letters in the same order, up to case. */
  predicate SameUpToCase(a: string, b: string) {
    |a| == |b| && forall i :: 0 <= i < |a| ==> Fold(a[i]) == Fold(b[i])
  }

  lemma SameUpToCaseOfAppend(a: string, b: string, c: string, d: string)
    requires SameUpToCase(a, c) && SameUpToCase(b, d)
    ensures SameUpToCase(a + b, c + d)
  {
    assert forall i :: |a| <= i < |a| + |b| ==> (a + b)[i] == b[i - |a|] && (c + d)[i] == d[i - |a|];
  }

  lemma {:induction false} SameUpToCaseOfConcat(xs: seq<string>, ys: seq<string>)
    requires |xs| == |ys|
    requires forall i :: 0 <= i < |xs| ==> SameUpToCase(xs[i], ys[i])
    ensures SameUpToCase(Concat(xs), Concat(ys))
  {
    if |xs| > 0 {
      SameUpToCaseOfConcat(xs[1..], ys[1..]);
      SameUpToCaseOfAppend(xs[0], Concat(xs[1..]), ys[0], Concat(ys[1..]));
    }
  }

  /** Strings equal up to case hold separators at the same places. */
  lemma SameUpToCaseKeepsSeparators(a: string, b: string)
    requires SameUpToCase(a, b) && NoSeparator(b)
    ensures NoSeparator(a)
  {
    forall i | 0 <= i < |a| ensures !IsSeparator(a[i]) {
      CaseMappingKeepsSeparators(a[i]);
      CaseMappingKeepsSeparators(b[i]);
    }
  }

  /** The first character of a non-empty concatenation is the first character of its first non-empty piece. */
  lemma {:induction false} ConcatHead(ws: seq<string>)
    requires |Concat(ws)| > 0
    ensures exists i :: 0 <= i < |ws| && |ws[i]| > 0 && Concat(ws)[0] == ws[i][0]
  {
    if |ws[0]| > 0 {
      assert Concat(ws)[0] == ws[0][0];
    } else {
      assert Concat(ws) == Concat(ws[1..]);
      ConcatHead(ws[1..]);
      var i :| 0 <= i < |ws[1..]| && |ws[1..][i]| > 0 && Concat(ws[1..])[0] == ws[1..][i][0];
      assert ws[i + 1] == ws[1..][i];
    }
  }

  /** A join whose first piece is non-empty starts with that piece's first character. */
  lemma JoinHead(ws: seq<string>, sep: string)
    requires |ws| > 0 && |ws[0]| > 0
    ensures |Join(ws, sep)| > 0 && Join(ws, sep)[0] == ws[0][0]
  {
  }

  /** A join whose last piece is non-empty ends with that piece's last character. */
  lemma {:induction false} JoinLast(ws: seq<string>, sep: string)
    requires |ws| > 0 && |ws[|ws| - 1]| > 0
    ensures |Join(ws, sep)| > 0
    ensures Join(ws, sep)[|Join(ws, sep)| - 1] == ws[|ws| - 1][|ws[|ws| - 1]| - 1]
  {
    if |ws| > 1 {
      JoinLast(ws[1..], sep);
    }
  }

  /**
   * Splitting undoes joining: words without separators, joined with a
   * separator run, split back into the same words.
   */
  lemma {:induction false} SplitJoin(ws: seq<string>, sep: string)
    requires |ws| > 0 && forall i :: 0 <= i < |ws| ==> |ws[i]| > 0 && NoSeparator(ws[i])
    requires |sep| > 0 && AllSeparators(sep)
    ensures Split(Join(ws, sep)) == ws
  {
    if |ws| == 1 {
      SplitOfWord(ws[0]);
    } else {
      var rest := Join(ws[1..], sep);
      SplitJoin(ws[1..], sep);
      JoinHead(ws[1..], sep);
      SplitOfAppend(ws[0], sep, rest);
      SplitOfWord(ws[0]);
      assert [ws[0]] + ws[1..] == ws;
    }
  }

  /** The non-empty pieces, in order. */
  function Words(ps: seq<string>): (r: seq<string>)
    ensures |r| <= |ps|
    ensures forall i :: 0 <= i < |r| ==> |r[i]| > 0
  {
    if |ps| == 0 then [] else (if |ps[0]| == 0 then [] else [ps[0]]) + Words(ps[1..])
  }

  /** A text that neither starts nor ends with whitespace is left alone by `trim`. */
  lemma TrimOfUnpadded(x: string)
    requires |x| > 0 && !IsWhitespace(x[0]) && !IsWhitespace(x[|x| - 1])
    ensures Trim(x) == x
  {
    TrimStartOfPadded([], x);
    assert [] + x == x;
    TrimEndOfPadded(x, []);
    assert x + [] == x;
  }

  /** Two words with a separator run between them split into exactly those two words. */
  lemma SplitOfTwoWords(a: string, seps: string, w: string)
    requires |a| > 0 && NoSeparator(a) && |w| > 0 && NoSeparator(w)
    requires |seps| > 0 && AllSeparators(seps)
    ensures Split(a + seps + w) == [a, w]
  {
    SplitOfAppend(a, seps, w);
    SplitOfWord(a);
    SplitOfWord(w);
  }

  /** A separator run in front of a word splits into an empty piece and the word. */
  lemma SplitOfLeadingSeparators(seps: string, w: string)
    requires |w| > 0 && NoSeparator(w)
    requires |seps| > 0 && AllSeparators(seps)
    ensures Split(seps + w) == [[], w]
  {
    SplitOfSeparators(seps, w);
    SplitOfWord(w);
  }

  lemma JoinOfTwo(x: string, y: string, sep: string)
    ensures Join([x, y], sep) == x + sep + y
  {
    assert [x, y][1..] == [y];
  }

  lemma {:induction false} WordsOfAppend(a: seq<string>, b: seq<string>)
    ensures Words(a + b) == Words(a) + Words(b)
  {
    if |a| == 0 {
      assert a + b == b;
    } else {
      assert (a + b)[1..] == a[1..] + b;
      WordsOfAppend(a[1..], b);
    }
  }

  /** Pieces that are all non-empty are their own words. */
  lemma {:induction false} WordsOfNonEmpty(ps: seq<string>)
    requires forall i :: 0 <= i < |ps| ==> |ps[i]| > 0
    ensures Words(ps) == ps
  {
    if |ps| > 0 {
      WordsOfNonEmpty(ps[1..]);
    }
  }

  /** Dropping empty pieces changes nothing in the concatenation. */
  lemma {:induction false} ConcatOfWords(ps: seq<string>)
    ensures Concat(Words(ps)) == Concat(ps)
  {
    if |ps| > 0 {
      ConcatOfWords(ps[1..]);
      var h := if |ps[0]| == 0 then [] else [ps[0]];
      ConcatOfAppend(h, Words(ps[1..]));
      assert Concat(h) == ps[0] + Concat([]);
    }
  }

  /** Every word is one of the pieces. */
  lemma {:induction false} WordsAreAmongPieces(ps: seq<string>)
    ensures forall i :: 0 <= i < |Words(ps)| ==> Words(ps)[i] in ps
  {
    if |ps| > 0 {
      WordsAreAmongPieces(ps[1..]);
      var h := if |ps[0]| == 0 then [] else [ps[0]];
      assert Words(ps) == h + Words(ps[1..]);
      forall i | 0 <= i < |Words(ps)| ensures Words(ps)[i] in ps {
        if i >= |h| {
          assert Words(ps)[i] == Words(ps[1..])[i - |h|];
        }
      }
    }
  }

  lemma JoinCons(x: string, ys: seq<string>, sep: string)
    requires |ys| > 0
    ensures Join([x] + ys, sep) == x + sep + Join(ys, sep)
  {
    assert ([x] + ys)[1..] == ys;
  }
}
