/**
 * The template tags of `tpls.ts`: `dedent`, which glues the raw segments of a
 * template to its values and strips the common indentation, and `quote`,
 * which glues pieces to arguments, putting string arguments in double quotes.
 * A template is given as its raw segments (`strings.raw`) and its values.
 */
module Tpls {
  import opened Chars
  import opened Text

  // Cooking a raw segment

  /** A space or a tab: the `[ \t]` of the line-continuation pattern. */
  predicate IsBlank(c: char) {
    c == ' ' || c == '\t'
  }

  /**
   * `raw.replace(/\\\n[ \t]*\/g, "")`, scanned left to right: a backslash
   * followed by a line break is deleted together with the spaces and tabs
   * after it, and the scan resumes after them.
   */
  function DropContinuations(s: string): (r: string)
    ensures |r| <= |s|
    decreases |s|
  {
    if |s| >= 2 && s[0] == '\\' && s[1] == '\n' then DropContinuations(s[2..][LeadingBlanks(s[2..])..])
    else if |s| == 0 then []
    else [s[0]] + DropContinuations(s[1..])
  }

  /** The two rewrites of a raw segment: continuations dropped, then every backslash-backtick made a backtick. */
  function Cooked(seg: string): string {
    ReplaceAll(DropContinuations(seg), "\\`", "`")
  }

  /** Text without a backslash holds no continuation. */
  lemma {:induction false} DropContinuationsOfPlain(s: string)
    requires '\\' !in s
    ensures DropContinuations(s) == s
  {
    if |s| > 0 {
      assert s[0] != '\\';
      TailLacks(s, '\\');
      DropContinuationsOfPlain(s[1..]);
    }
  }

  /** The number of spaces and tabs `s` starts with. */
  function LeadingBlanks(s: string): (n: nat)
    ensures n <= |s|
  {
    if |s| > 0 && IsBlank(s[0]) then 1 + LeadingBlanks(s[1..]) else 0
  }

  /** A run of blanks is exactly what the `[ \t]*` after a backslash-newline takes. */
  lemma {:induction false} LeadingBlanksOf(blanks: string, b: string)
    requires forall i :: 0 <= i < |blanks| ==> IsBlank(blanks[i])
    requires |b| == 0 || !IsBlank(b[0])
    ensures LeadingBlanks(blanks + b) == |blanks|
  {
    if |blanks| > 0 {
      assert (blanks + b)[0] == blanks[0];
      assert (blanks + b)[1..] == blanks[1..] + b;
      LeadingBlanksOf(blanks[1..], b);
    } else {
      assert blanks + b == b;
    }
  }

  /**
   * Text before a backslash-newline is kept; the backslash, the line break
   * and the blanks after it disappear.
   */
  lemma {:induction false} DropContinuationsOfBreak(a: string, blanks: string, b: string)
    requires '\\' !in a
    requires forall i :: 0 <= i < |blanks| ==> IsBlank(blanks[i])
    requires |b| == 0 || !IsBlank(b[0])
    ensures DropContinuations(a + "\\\n" + blanks + b) == a + DropContinuations(b)
  {
    if |a| == 0 {
      assert a + "\\\n" + blanks + b == "\\\n" + blanks + b;
      DropContinuationsAtBreak(blanks, b);
    } else {
      TailLacks(a, '\\');
      DropContinuationsOfBreak(a[1..], blanks, b);
      Regroup(a, "\\\n", blanks, b);
      Regroup(a[1..], "\\\n", blanks, b);
      ConsBreak(a, "\\\n" + blanks + b);
      DropContinuationsStep(a[0], a[1..] + ("\\\n" + blanks + b));
    }
  }

  /** A character missing from a text is missing from its tail. */
  lemma TailLacks(a: string, c: char)
    requires |a| > 0 && c !in a
    ensures c !in a[1..]
  {
  }

  lemma Regroup(w: string, x: string, y: string, z: string)
    ensures w + x + y + z == w + (x + y + z)
  {
  }

  lemma ConsBreak(a: string, t: string)
    requires |a| > 0
    ensures a + t == [a[0]] + (a[1..] + t)
  {
  }

  /** A character other than a backslash is kept and the scan moves on. */
  lemma DropContinuationsStep(c: char, t: string)
    requires c != '\\'
    ensures DropContinuations([c] + t) == [c] + DropContinuations(t)
  {
    assert ([c] + t)[1..] == t;
  }

  lemma DropContinuationsAtBreak(blanks: string, b: string)
    requires forall i :: 0 <= i < |blanks| ==> IsBlank(blanks[i])
    requires |b| == 0 || !IsBlank(b[0])
    ensures DropContinuations("\\\n" + blanks + b) == DropContinuations(b)
  {
    var t := blanks + b;
    LeadingBlanksOf(blanks, b);
    assert t[|blanks|..] == b;
    assert "\\\n" + blanks + b == "\\\n" + t;
    DropContinuationsBreak(t);
  }

  /** A backslash-newline in front of a text is dropped with the blanks the text starts with. */
  lemma DropContinuationsBreak(t: string)
    ensures DropContinuations("\\\n" + t) == DropContinuations(t[LeadingBlanks(t)..])
  {
    var s := "\\\n" + t;
    assert s[2..] == t;
  }

  /** Text in which no backslash is followed by a line break holds no continuation. */
  lemma {:induction false} DropContinuationsOfUnbroken(s: string)
    requires forall i :: 0 <= i < |s| - 1 && s[i] == '\\' ==> s[i + 1] != '\n'
    ensures DropContinuations(s) == s
  {
    if |s| > 0 {
      assert !(|s| >= 2 && s[0] == '\\' && s[1] == '\n');
      var t := s[1..];
      assert forall i :: 0 <= i < |t| - 1 && t[i] == '\\' ==> t[i + 1] != '\n' by {
        forall i | 0 <= i < |t| - 1 && t[i] == '\\' ensures t[i + 1] != '\n' {
          assert s[i + 1] == t[i] && s[i + 2] == t[i + 1];
        }
      }
      DropContinuationsOfUnbroken(t);
      assert [s[0]] + t == s;
    }
  }

  /** A segment without a backslash is used as it is. */
  lemma CookedOfPlain(seg: string)
    requires '\\' !in seg
    ensures Cooked(seg) == seg
  {
    DropContinuationsOfPlain(seg);
    ReplaceAllWithout(seg, "\\`", "`");
  }

  /** An escaped backtick between backslash-free texts becomes a backtick. */
  lemma CookedOfEscapedBacktick(a: string, b: string)
    requires '\\' !in a && '\\' !in b
    ensures Cooked(a + "\\`" + b) == a + "`" + b
  {
    DropContinuationsAroundBackslash(a, '`', b);
    UnescapeBacktick(a, b);
  }

  lemma UnescapeBacktick(a: string, b: string)
    requires '\\' !in a && '\\' !in b
    ensures ReplaceAll(a + "\\`" + b, "\\`", "`") == a + "`" + b
  {
    var t := "\\`" + b;
    assert a + "\\`" + b == a + t;
    ReplaceAllOfPrefix(a, t, "\\`", "`");
    StartsWithAppend("\\`", b);
    ReplaceAllMatch(t, "\\`", "`");
    assert t[2..] == b;
    ReplaceAllWithout(b, "\\`", "`");
  }

  /** A backslash that is not followed by a line break is kept, and so is what follows it. */
  lemma {:induction false} DropContinuationsAroundBackslash(a: string, c: char, b: string)
    requires '\\' !in a && '\\' !in b && c != '\n' && c != '\\'
    ensures DropContinuations(a + ['\\', c] + b) == a + ['\\', c] + b
  {
    if |a| == 0 {
      var s := ['\\', c] + b;
      assert a + ['\\', c] + b == s;
      assert s[1..] == [c] + b;
      assert '\\' !in [c] + b by {
        forall i | 0 <= i < |[c] + b| ensures ([c] + b)[i] != '\\' {
          if i > 0 {
            assert ([c] + b)[i] == b[i - 1];
          }
        }
      }
      DropContinuationsOfPlain([c] + b);
    } else {
      var s := a + ['\\', c] + b;
      assert s[0] == a[0];
      assert s[1..] == a[1..] + ['\\', c] + b;
      TailLacks(a, '\\');
      DropContinuationsAroundBackslash(a[1..], c, b);
      assert [a[0]] + a[1..] == a;
    }
  }

  // Assembling the template

  /**
   * What the first loop of `dedent` has built after `n` raw segments: each
   * cooked segment followed by the value of the same index, if there is one.
   */
  function Assembled(raw: seq<string>, values: seq<string>, n: nat): string
    requires n <= |raw|
  {
    if n == 0 then []
    else Assembled(raw, values, n - 1) + Cooked(raw[n - 1]) + (if n - 1 < |values| then values[n - 1] else [])
  }

  /** Values at positions past the last raw segment are never used. */
  lemma {:induction false} AssembledIgnoresLateValues(raw: seq<string>, values: seq<string>, n: nat)
    requires n <= |raw| <= |values|
    ensures Assembled(raw, values, n) == Assembled(raw, values[..|raw|], n)
  {
    if n > 0 {
      AssembledIgnoresLateValues(raw, values, n - 1);
      assert values[..|raw|][n - 1] == values[n - 1];
    }
  }

  /** Two segments around one value: the segments are cooked, the value is inserted verbatim. */
  lemma AssembledOfTwo(a: string, v: string, b: string)
    ensures Assembled([a, b], [v], 2) == Cooked(a) + v + Cooked(b)
  {
    assert Assembled([a, b], [v], 1) == [] + Cooked(a) + v;
    assert [] + Cooked(a) + v == Cooked(a) + v;
  }

  /** An escaped backtick inside a value stays escaped, unlike one inside a segment. */
  lemma AssembledKeepsEscapesInValues()
    ensures Assembled(["x", "y"], ["\\`"], 2) == "x\\`y"
  {
    AssembledOfTwo("x", "\\`", "y");
    CookedOfPlain("x");
    CookedOfPlain("y");
  }

  // The common indentation

  /** The number of whitespace characters `l` starts with. */
  function LeadingWhitespace(l: string): (n: nat)
    ensures n <= |l| && AllWhitespace(l[..n])
    ensures n < |l| ==> !IsWhitespace(l[n])
  {
    if |l| > 0 && IsWhitespace(l[0]) then
      var n := 1 + LeadingWhitespace(l[1..]);
      assert l[..n] == [l[0]] + l[1..][..n - 1];
      n
    else 0
  }

  /**
   * `l.match(/^(\s+)\S+/)`: the length of the leading whitespace when there is
   * some and a non-whitespace character follows it.
   */
  function IndentOf(l: string): (r: Option<nat>)
    ensures r.Some? ==> 1 <= r.value < |l|
  {
    var k := LeadingWhitespace(l);
    if 0 < k < |l| then Some(k) else None
  }

  /** `IndentOf` is the regular expression: whitespace, at least one character of it, then something else. */
  lemma IndentOfMatch(l: string, k: nat)
    ensures IndentOf(l) == Some(k) <==>
      1 <= k < |l| && AllWhitespace(l[..k]) && !IsWhitespace(l[k])
  {
    var n := LeadingWhitespace(l);
    if 1 <= k < |l| && AllWhitespace(l[..k]) && !IsWhitespace(l[k]) {
      assert n == k;
    }
  }

  /** A line that is whitespace only, or that starts with something else, has no indent. */
  lemma IndentOfNone(l: string)
    ensures IndentOf(l).None? <==> |l| == 0 || AllWhitespace(l) || !IsWhitespace(l[0])
  {
    var n := LeadingWhitespace(l);
    if n == |l| {
      assert AllWhitespace(l);
    }
  }

  function Min(a: nat, b: nat): nat {
    if a <= b then a else b
  }

  /** The `mindent` the second loop of `dedent` ends with after the lines `ls`, in order. */
  function MinIndent(ls: seq<string>): (r: Option<nat>)
    ensures r.Some? ==> r.value >= 1
  {
    if |ls| == 0 then None
    else
      var m := MinIndent(ls[..|ls| - 1]);
      match IndentOf(ls[|ls| - 1])
      case None => m
      case Some(k) => if m.None? then Some(k) else Some(Min(m.value, k))
  }

  /**
   * The minimum indent is the least indent of a line that has one, and there
   * is none exactly when no line has an indent.
   */
  lemma {:induction false} MinIndentIsLeast(ls: seq<string>)
    ensures MinIndent(ls).None? <==> forall i :: 0 <= i < |ls| ==> IndentOf(ls[i]).None?
    ensures MinIndent(ls).Some? ==> exists i :: 0 <= i < |ls| && IndentOf(ls[i]) == MinIndent(ls)
    ensures MinIndent(ls).Some? ==>
      forall i :: 0 <= i < |ls| && IndentOf(ls[i]).Some? ==> MinIndent(ls).value <= IndentOf(ls[i]).value
  {
    if |ls| > 0 {
      var init, last := ls[..|ls| - 1], |ls| - 1;
      MinIndentIsLeast(init);
      assert forall i :: 0 <= i < |init| ==> init[i] == ls[i];
      if MinIndent(init).Some? {
        var j :| 0 <= j < |init| && IndentOf(init[j]) == MinIndent(init);
        assert IndentOf(ls[j]) == MinIndent(init);
      }
      if MinIndent(ls) != MinIndent(init) {
        assert IndentOf(ls[last]) == MinIndent(ls);
      }
    }
  }

  // Stripping the indent

  /** `l[0] === " " ? l.slice(m) : l`. */
  function StripLine(l: string, m: nat): string {
    if |l| > 0 && l[0] == ' ' then (if m <= |l| then l[m..] else []) else l
  }

  function StripLines(ls: seq<string>, m: nat): (r: seq<string>)
    ensures |r| == |ls| && forall i :: 0 <= i < |ls| ==> r[i] == StripLine(ls[i], m)
  {
    seq(|ls|, i requires 0 <= i < |ls| => StripLine(ls[i], m))
  }

  /**
   * With the minimum indent of its lines, stripping a line removes only
   * leading whitespace: what remains is a suffix of the line and what was cut
   * off is whitespace.
   */
  lemma StripLineCutsWhitespace(ls: seq<string>, i: nat)
    requires i < |ls| && MinIndent(ls).Some?
    ensures |StripLine(ls[i], MinIndent(ls).value)| <= |ls[i]|
    ensures StripLine(ls[i], MinIndent(ls).value) == ls[i][|ls[i]| - |StripLine(ls[i], MinIndent(ls).value)|..]
    ensures AllWhitespace(ls[i][..|ls[i]| - |StripLine(ls[i], MinIndent(ls).value)|])
  {
    MinIndentIsLeast(ls);
    StripLineCuts(ls[i], MinIndent(ls).value);
  }

  /** Stripping at most a line's own indent removes only whitespace from its front. */
  lemma StripLineCuts(l: string, m: nat)
    requires IndentOf(l).Some? ==> m <= IndentOf(l).value
    ensures |StripLine(l, m)| <= |l|
    ensures StripLine(l, m) == l[|l| - |StripLine(l, m)|..]
    ensures AllWhitespace(l[..|l| - |StripLine(l, m)|])
  {
    if |l| > 0 && l[0] == ' ' {
      var k := LeadingWhitespace(l);
      if k < |l| {
        assert IndentOf(l) == Some(k);
        assert l[..m] == l[..k][..m];
      } else if m <= |l| {
        assert l[..m] == l[..k][..m];
      } else {
        assert l[..|l|] == l;
      }
    } else {
      assert l[|l|..] == [];
    }
  }

  /**
   * Relative indentation is kept: a space-led line with `k` characters of
   * indent comes out with `k - m` of them and the same text after them.
   */
  lemma StripLineKeepsRelativeIndent(l: string, m: nat, k: nat)
    requires |l| > 0 && l[0] == ' ' && IndentOf(l) == Some(k) && m <= k
    ensures StripLine(l, m) == l[m..]
    ensures m < k ==> IndentOf(StripLine(l, m)) == Some(k - m)
    ensures m == k ==> !IsWhitespace(StripLine(l, m)[0])
  {
    IndentOfMatch(l, k);
    var r := l[m..];
    if m < k {
      assert r[..k - m] == l[..k][m..];
      assert r[k - m] == l[k];
      IndentOfMatch(r, k - m);
    }
  }

  /** Lines that do not start with a space are left alone: a tab-led line keeps its tabs. */
  lemma StripLineKeepsOthers(l: string, m: nat)
    requires |l| == 0 || l[0] != ' '
    ensures StripLine(l, m) == l
  {
  }

  /** `dedent` between its two loops and its last line: the lines stripped of the minimum indent, if there is one. */
  function Reindented(text: string): string {
    var lines := SplitLines(text);
    match MinIndent(lines)
    case None => text
    case Some(m) => JoinLines(StripLines(lines, m))
  }

  /** Without an indented line the text is unchanged. */
  lemma ReindentedOfUnindented(text: string)
    requires forall i :: 0 <= i < |SplitLines(text)| ==> IndentOf(SplitLines(text)[i]).None?
    ensures Reindented(text) == text
  {
    MinIndentIsLeast(SplitLines(text));
  }

  /** `result.trim().replace(/\\n/g, "\n")`: trimmed first, and only then are escaped line breaks made real. */
  function Finished(text: string): string {
    ReplaceAll(Trim(text), "\\n", "\n")
  }

  /** A trailing escaped line break survives the trim: it becomes a line break only after trimming. */
  lemma FinishedTrimsFirst()
    ensures Finished("  a\\n ") == "a\n"
  {
    TrimsFirstTrim();
    TrimsFirstUnescape();
  }

  lemma TrimsFirstTrim()
    ensures Trim("  a\\n ") == "a\\n"
  {
    assert "  a\\n " == "  " + "a\\n" + " ";
    TrimOfPadded("  ", "a\\n", " ");
  }

  lemma TrimsFirstUnescape()
    ensures ReplaceAll("a\\n", "\\n", "\n") == "a\n"
  {
    assert "a\\n" == "a" + "\\n";
    ReplaceAllOfPrefix("a", "\\n", "\\n", "\n");
    StartsWithAppend("\\n", []);
    assert "\\n" + [] == "\\n";
    ReplaceAllMatch("\\n", "\\n", "\n");
    assert "\\n"[2..] == [];
  }

  /** `dedent(strings, ...values)`. */
  function Dedented(raw: seq<string>, values: seq<string>): string {
    Finished(Reindented(Assembled(raw, values, |raw|)))
  }

  /** `dedent`: the assembly loop and the minimum-indent loop, then the strip, the trim and the unescape. */
  method Dedent(raw: seq<string>, values: seq<string>) returns (r: string)
    ensures r == Dedented(raw, values)
  {
    var result := "";
    for i := 0 to |raw|
      invariant result == Assembled(raw, values, i)
    {
      result := result + Cooked(raw[i]);
      if i < |values| {
        result := result + values[i];
      }
    }
    var lines := SplitLines(result);
    var mindent: Option<nat> := None;
    for i := 0 to |lines|
      invariant mindent == MinIndent(lines[..i])
    {
      assert lines[..i + 1][..i] == lines[..i];
      var m := IndentOf(lines[i]);
      if m.Some? {
        var indent := m.value;
        if mindent.None? || mindent.value == 0 {
          mindent := Some(indent);
        } else {
          mindent := Some(Min(mindent.value, indent));
        }
      }
    }
    assert lines[..|lines|] == lines;
    if mindent.Some? {
      result := JoinLines(StripLines(lines, mindent.value));
    }
    r := Finished(result);
  }

  // The example of the doc comment, in small

  /**
   * A block indented by four spaces, with one line indented by two more,
   * loses the common four and keeps the relative two; the leading and
   * trailing lines are trimmed away.
   */
  lemma DedentDocExample()
    ensures Dedented(["\n    a\n      b\n  "], []) == "a\n  b"
  {
    var seg := "\n    a\n      b\n  ";
    CookedOfPlain(seg);
    assert Assembled([seg], [], 1) == seg by {
      assert Assembled([seg], [], 0) == [];
    }
    var ls := ["", "    a", "      b", "  "];
    DocExampleLines(seg);
    DocExampleMinIndent(ls);
    DocExampleStrip();
    DocExampleJoin(["", "a", "  b", ""]);
    DocExampleFinished("a\n  b");
  }

  lemma DocExampleLines(seg: string)
    requires seg == "\n    a\n      b\n  "
    ensures SplitLines(seg) == ["", "    a", "      b", "  "]
  {
    var t := "    a" + "\n" + ("      b" + "\n" + "  ");
    DocExampleTailLines(t);
    assert seg == "\n" + t;
    SplitLinesAfterBreak(t, ["    a", "      b", "  "]);
    assert [""] + ["    a", "      b", "  "] == ["", "    a", "      b", "  "];
  }

  lemma DocExampleTailLines(t: string)
    requires t == "    a" + "\n" + ("      b" + "\n" + "  ")
    ensures SplitLines(t) == ["    a", "      b", "  "]
  {
    SplitLinesOfAppend("    a", "      b" + "\n" + "  ");
    SplitLinesOfLine("    a");
    DocExampleLastLines("      b" + "\n" + "  ");
  }

  lemma DocExampleLastLines(t: string)
    requires t == "      b" + "\n" + "  "
    ensures SplitLines(t) == ["      b", "  "]
  {
    SplitLinesOfAppend("      b", "  ");
    SplitLinesOfLine("      b");
    SplitLinesOfLine("  ");
  }

  lemma DocExampleMinIndent(ls: seq<string>)
    requires ls == ["", "    a", "      b", "  "]
    ensures MinIndent(ls) == Some(4)
  {
    MinIndentIsLeast(ls);
    DocExampleIndents();
    assert IndentOf(ls[1]) == Some(4);
    var j :| 0 <= j < |ls| && IndentOf(ls[j]) == MinIndent(ls);
    assert MinIndent(ls).value <= 4;
  }

  lemma DocExampleIndents()
    ensures IndentOf("") == None && IndentOf("  ") == None
    ensures IndentOf("    a") == Some(4) && IndentOf("      b") == Some(6)
  {
    assert AllWhitespace("    a"[..4]) && !IsWhitespace("    a"[4]);
    IndentOfMatch("    a", 4);
    assert AllWhitespace("      b"[..6]) && !IsWhitespace("      b"[6]);
    IndentOfMatch("      b", 6);
    IndentOfNone("");
    assert AllWhitespace("  ");
    IndentOfNone("  ");
  }

  lemma DocExampleStrip()
    ensures StripLines(["", "    a", "      b", "  "], 4) == ["", "a", "  b", ""]
  {
    assert "    a"[4..] == "a";
    assert "      b"[4..] == "  b";
  }

  lemma DocExampleJoin(stripped: seq<string>)
    requires stripped == ["", "a", "  b", ""]
    ensures JoinLines(stripped) == "\n" + "a\n  b" + "\n"
  {
    assert JoinLines(stripped[3..]) == "" by {
      assert stripped[3..] == [""];
    }
    assert JoinLines(stripped[2..]) == "  b" + "\n" + "" by {
      assert stripped[2..][1..] == stripped[3..];
    }
    assert JoinLines(stripped[1..]) == "a" + "\n" + ("  b" + "\n" + "") by {
      assert stripped[1..][1..] == stripped[2..];
    }
  }

  lemma DocExampleFinished(x: string)
    requires x == "a\n  b"
    ensures Finished("\n" + x + "\n") == x
  {
    assert x[0] == 'a' && x[|x| - 1] == 'b';
    assert AllWhitespace("\n");
    assert x == ['a', '\n', ' ', ' ', 'b'];
    FinishedOfPlain("\n", x, "\n");
  }

  /** Text without a backslash, padded with whitespace, comes out of the last step as it is. */
  lemma FinishedOfPlain(a: string, x: string, b: string)
    requires AllWhitespace(a) && AllWhitespace(b)
    requires |x| > 0 && !IsWhitespace(x[0]) && !IsWhitespace(x[|x| - 1])
    requires '\\' !in x
    ensures Finished(a + x + b) == x
  {
    TrimOfPadded(a, x, b);
    ReplaceAllWithout(x, "\\n", "\n");
  }

  // quote

  /** An argument of `quote`: a string, or a number (integers only). */
  datatype QuoteArg = Str(s: string) | Num(n: int)

  function Digit(d: nat): (c: char)
    requires d < 10
    ensures IsDigit(c)
  {
    ('0' as int + d) as char
  }

  /** `String(n)` for a natural number: its decimal digits, most significant first. */
  function NatToString(n: nat): (r: string)
    ensures |r| > 0 && forall i :: 0 <= i < |r| ==> IsDigit(r[i])
    ensures |r| > 1 ==> r[0] != '0'
    decreases n
  {
    if n < 10 then [Digit(n)] else NatToString(n / 10) + [Digit(n % 10)]
  }

  /** The number a string of decimal digits denotes. */
  function DigitsValue(r: string): nat
    requires forall i :: 0 <= i < |r| ==> IsDigit(r[i])
  {
    if |r| == 0 then 0
    else
      assert IsDigit(r[|r| - 1]);
      DigitsValue(r[..|r| - 1]) * 10 + (r[|r| - 1] as int - '0' as int)
  }

  /** The digits of `n` denote `n`. */
  lemma {:induction false} NatToStringValue(n: nat)
    ensures DigitsValue(NatToString(n)) == n
    decreases n
  {
    if n >= 10 {
      NatToStringValue(n / 10);
      var r := NatToString(n);
      assert r[..|r| - 1] == NatToString(n / 10);
    }
  }

  /** `String(n)` for an integer: a minus sign in front of the digits of a negative one. */
  function IntToString(n: int): (r: string)
    ensures |r| > 0 && (r[0] == '-' <==> n < 0)
  {
    if n < 0 then "-" + NatToString(-n) else NatToString(n)
  }

  /** An argument as the loop body appends it: a string in double quotes, a number in decimal. */
  function Formatted(a: QuoteArg): string {
    match a
    case Str(s) => "\"" + s + "\""
    case Num(n) => IntToString(n)
  }

  /** `pieces[j]` in a string concatenation: past the end it reads as `undefined`. */
  function PieceAt(pieces: seq<string>, j: nat): string {
    if j < |pieces| then pieces[j] else "undefined"
  }

  /**
   * What the first loop of `quote` appends for argument `a` followed by
   * `pieces[j]`. A string argument is concatenated with the piece, so a
   * missing piece reads as `undefined`; a number is added to the piece, and
   * a number plus `undefined` is `NaN`.
   */
  function ArgWithPiece(pieces: seq<string>, a: QuoteArg, j: nat): (r: string)
    ensures j < |pieces| ==> r == Formatted(a) + pieces[j]
    ensures j >= |pieces| ==> r == (if a.Str? then Formatted(a) + "undefined" else "NaN")
  {
    match a
    case Str(s) => "\"" + s + "\"" + PieceAt(pieces, j)
    case Num(n) => if j < |pieces| then IntToString(n) + pieces[j] else "NaN"
  }

  /** What the first loop of `quote` has built after `n` arguments. */
  function QuotedArgs(pieces: seq<string>, args: seq<QuoteArg>, n: nat): string
    requires |pieces| >= 1 && n <= |args|
  {
    if n == 0 then pieces[0] else QuotedArgs(pieces, args, n - 1) + ArgWithPiece(pieces, args[n - 1], n)
  }

  /** `quote(pieces, ...args)`: the first loop, then every piece after index `args.length`. */
  function Quoted(pieces: seq<string>, args: seq<QuoteArg>): string
    requires |pieces| >= 1
  {
    QuotedArgs(pieces, args, |args|) + (if |args| + 1 <= |pieces| then Concat(pieces[|args| + 1..]) else [])
  }

  /** `quote`: the loop over the arguments, then the loop over the pieces left after them. */
  method Quote(pieces: seq<string>, args: seq<QuoteArg>) returns (parsed: string)
    requires |pieces| >= 1
    ensures parsed == Quoted(pieces, args)
  {
    parsed := pieces[0];
    for i := 0 to |args|
      invariant parsed == QuotedArgs(pieces, args, i)
    {
      match args[i] {
        case Str(s) =>
          var quoted := "\"" + s + "\"";
          parsed := parsed + (quoted + PieceAt(pieces, i + 1));
        case Num(n) =>
          if i + 1 < |pieces| {
            parsed := parsed + (IntToString(n) + pieces[i + 1]);
          } else {
            parsed := parsed + "NaN";
          }
      }
      QuotedArgsStep(pieces, args, i);
    }
    parsed := AppendPieces(pieces, |args| + 1, parsed);
  }

  /** The second loop of `quote`: every piece from index `start` on is appended to `parsed`. */
  method AppendPieces(pieces: seq<string>, start: nat, head: string) returns (parsed: string)
    ensures parsed == head + (if start <= |pieces| then Concat(pieces[start..]) else [])
  {
    parsed := head;
    var i := start;
    while i < |pieces|
      invariant start <= i && (i <= |pieces| || i == start)
      invariant parsed == head + PiecesBetween(pieces, start, i)
    {
      parsed := parsed + pieces[i];
      i := i + 1;
    }
    if start <= |pieces| {
      PiecesBetweenConcat(pieces, start, i);
      assert pieces[start..i] == pieces[start..];
    }
  }

  /** What the second loop of `quote` appends: the pieces from index `start` up to `i`. */
  function PiecesBetween(pieces: seq<string>, start: nat, i: nat): string
    decreases i
  {
    if start < i <= |pieces| then PiecesBetween(pieces, start, i - 1) + pieces[i - 1] else []
  }

  lemma {:induction false} PiecesBetweenConcat(pieces: seq<string>, start: nat, i: nat)
    requires start <= i <= |pieces|
    ensures PiecesBetween(pieces, start, i) == Concat(pieces[start..i])
    decreases i
  {
    if start < i {
      PiecesBetweenConcat(pieces, start, i - 1);
      ConcatSnoc(pieces, start, i - 1);
    } else {
      assert pieces[start..i] == [];
    }
  }

  lemma QuotedArgsStep(pieces: seq<string>, args: seq<QuoteArg>, i: nat)
    requires |pieces| >= 1 && i < |args|
    ensures QuotedArgs(pieces, args, i + 1) == QuotedArgs(pieces, args, i) + ArgWithPiece(pieces, args[i], i + 1)
  {
  }

  lemma ConcatSnoc(ps: seq<string>, i: nat, j: nat)
    requires i <= j < |ps|
    ensures Concat(ps[i..j + 1]) == Concat(ps[i..j]) + ps[j]
  {
    ConcatOfAppend(ps[i..j], [ps[j]]);
    assert ps[i..j + 1] == ps[i..j] + [ps[j]];
    assert Concat([ps[j]]) == ps[j] + Concat([]);
  }

  /** The formatted arguments. */
  function Formats(args: seq<QuoteArg>): (r: seq<string>)
    ensures |r| == |args| && forall i :: 0 <= i < |args| ==> r[i] == Formatted(args[i])
  {
    seq(|args|, i requires 0 <= i < |args| => Formatted(args[i]))
  }

  /** A template's value from its pieces and the texts between them, defined from the front. */
  function Interleaved(pieces: seq<string>, texts: seq<string>): string
    requires |pieces| == |texts| + 1
  {
    if |texts| == 0 then pieces[0] else pieces[0] + texts[0] + Interleaved(pieces[1..], texts[1..])
  }

  /** Adding a text and a piece at the end of an interleaving. */
  lemma {:induction false} InterleavedSnoc(pieces: seq<string>, texts: seq<string>, t: string, p: string)
    requires |pieces| == |texts| + 1
    ensures Interleaved(pieces + [p], texts + [t]) == Interleaved(pieces, texts) + t + p
  {
    if |texts| == 0 {
      assert (pieces + [p])[1..] == [p];
      assert (texts + [t])[1..] == [];
    } else {
      assert (pieces + [p])[1..] == pieces[1..] + [p];
      assert (texts + [t])[1..] == texts[1..] + [t];
      InterleavedSnoc(pieces[1..], texts[1..], t, p);
    }
  }

  lemma TakeSnoc<T>(s: seq<T>, n: nat)
    requires n < |s|
    ensures s[..n + 1] == s[..n] + [s[n]]
  {
  }

  /** The first loop builds the interleaving of the pieces it has reached with the formatted arguments. */
  lemma {:induction false} QuotedArgsInterleaved(pieces: seq<string>, args: seq<QuoteArg>, n: nat)
    requires |pieces| == |args| + 1 && n <= |args|
    ensures QuotedArgs(pieces, args, n) == Interleaved(pieces[..n + 1], Formats(args)[..n])
  {
    if n == 0 {
      assert pieces[..1] == [pieces[0]];
    } else {
      QuotedArgsInterleaved(pieces, args, n - 1);
      InterleavedStep(pieces, Formats(args), n);
      QuotedArgsStep(pieces, args, n - 1);
      AppendBoth(QuotedArgs(pieces, args, n - 1), Formats(args)[n - 1], pieces[n],
        ArgWithPiece(pieces, args[n - 1], n), QuotedArgs(pieces, args, n));
    }
  }

  lemma AppendBoth(x: string, t: string, p: string, y: string, r: string)
    requires y == t + p && r == x + y
    ensures r == x + t + p
  {
  }

  /** One more piece and text at the end of an interleaving of prefixes. */
  lemma InterleavedStep(pieces: seq<string>, texts: seq<string>, n: nat)
    requires |pieces| == |texts| + 1 && 1 <= n <= |texts|
    ensures Interleaved(pieces[..n + 1], texts[..n]) == Interleaved(pieces[..n], texts[..n - 1]) + texts[n - 1] + pieces[n]
  {
    TakeSnoc(pieces, n);
    TakeSnoc(texts, n - 1);
    InterleavedSnoc(pieces[..n], texts[..n - 1], texts[n - 1], pieces[n]);
  }

  /**
   * Called as a tag, with one more piece than arguments, `quote` gives the
   * template's value with each argument formatted: strings in double quotes.
   */
  lemma QuotedIsInterleaved(pieces: seq<string>, args: seq<QuoteArg>)
    requires |pieces| == |args| + 1
    ensures Quoted(pieces, args) == Interleaved(pieces, Formats(args))
  {
    QuotedArgsInterleaved(pieces, args, |args|);
    QuotedOfTag(pieces, args);
    assert pieces[..|args| + 1] == pieces;
    assert Formats(args)[..|args|] == Formats(args);
  }

  lemma QuotedOfTag(pieces: seq<string>, args: seq<QuoteArg>)
    requires |pieces| == |args| + 1
    ensures Quoted(pieces, args) == QuotedArgs(pieces, args, |args|)
  {
    assert pieces[|args| + 1..] == [];
    assert Concat([]) == [];
  }

  /** Without arguments the pieces are simply concatenated. */
  lemma QuotedWithoutArgs(pieces: seq<string>)
    requires |pieces| >= 1
    ensures Quoted(pieces, []) == Concat(pieces)
  {
    assert QuotedArgs(pieces, [], 0) == pieces[0];
    assert Concat(pieces) == pieces[0] + Concat(pieces[1..]);
  }

  /** A string argument is wrapped in double quotes. */
  lemma QuotedString(a: string, s: string, b: string)
    ensures Quoted([a, b], [Str(s)]) == a + "\"" + s + "\"" + b
  {
    assert [a, b][2..] == [];
    assert Concat([]) == [];
    assert QuotedArgs([a, b], [Str(s)], 1) == a + ("\"" + s + "\"" + b);
  }

  /** A negative number is written with its sign. */
  lemma QuotedNumber()
    ensures Quoted(["n=", ""], [Num(-12)]) == "n=-12"
  {
    assert NatToString(12) == NatToString(1) + [Digit(2)];
    assert ["n=", ""][2..] == [];
  }

  /** After a string argument a missing piece is read as `undefined`. */
  lemma QuotedMissingPiece(a: string, s: string)
    ensures Quoted([a], [Str(s)]) == a + "\"" + s + "\"" + "undefined"
  {
    assert QuotedArgs([a], [Str(s)], 1) == a + ("\"" + s + "\"" + "undefined");
  }

  /** After a number argument a missing piece turns the sum into `NaN`, whatever the number. */
  lemma QuotedNumberMissingPiece(a: string, n: int)
    ensures Quoted([a], [Num(n)]) == a + "NaN"
  {
    assert QuotedArgs([a], [Num(n)], 1) == a + "NaN";
  }
}
