/**
 * `content-utils.ts`: the fence language of a content type and the wrapping
 * of content in a fenced code block, written as a `dedent` template.
 */
module ContentUtils {
  import opened Chars
  import opened Text
  import opened Tpls

  /** The fenced-code-block languages of the known content types. */
  const FencedCodeBlockLangs: map<string, string> := map[
    "application/javascript" := "js",
    "application/typescript" := "ts",
    "application/json" := "json"
  ]

  /** `codeBlock`: the language of a content type, `"txt"` for any other type. */
  function CodeBlock(contentType: string): string {
    if contentType in FencedCodeBlockLangs then FencedCodeBlockLangs[contentType] else "txt"
  }

  /**
   * The language is one of the four fence languages, and it is `"txt"`
   * exactly for the content types outside the table.
   */
  lemma CodeBlockLanguage(contentType: string)
    ensures CodeBlock(contentType) in {"js", "ts", "json", "txt"}
    ensures CodeBlock(contentType) == "txt" <==> contentType !in FencedCodeBlockLangs
    ensures contentType in FencedCodeBlockLangs ==> CodeBlock(contentType) == FencedCodeBlockLangs[contentType]
  {
  }

  lemma CodeBlockExamples()
    ensures CodeBlock("application/javascript") == "js"
    ensures CodeBlock("application/typescript") == "ts"
    ensures CodeBlock("application/json") == "json"
    ensures CodeBlock("text/html") == "txt"
  {
    assert "text/html" !in FencedCodeBlockLangs;
  }

  /** A fence language holds neither a backslash nor a line break. */
  lemma CodeBlockIsPlain(contentType: string)
    ensures '\\' !in CodeBlock(contentType) && '\n' !in CodeBlock(contentType)
    ensures |CodeBlock(contentType)| > 0 && !IsWhitespace(CodeBlock(contentType)[|CodeBlock(contentType)| - 1])
  {
    CodeBlockLanguage(contentType);
  }

  // The template of `wrapInCodeBlock`

  /** Three escaped backticks, as they stand in the raw template. */
  const EscapedFence: string := "\\`\\`\\`"

  /**
   * The raw segments of the template in `wrapInCodeBlock`: each starts with
   * a line break and the two spaces of the source's indentation.
   */
  const WrapRaw: seq<string> := ["\n  " + EscapedFence, "\n  ", "\n  " + EscapedFence + "\n  "]

  /** `wrapInCodeBlock(content, contentType)`. */
  function WrapInCodeBlock(content: string, contentType: string): string {
    Dedented(WrapRaw, [CodeBlock(contentType), content])
  }

  /** The three escaped backticks become a fence. */
  lemma UnescapeFence(t: string)
    ensures ReplaceAll(EscapedFence + t, "\\`", "`") == "```" + ReplaceAll(t, "\\`", "`")
  {
    var t1, t2 := "\\`\\`" + t, "\\`" + t;
    assert EscapedFence + t == "\\`" + t1;
    assert t1 == "\\`" + t2;
    StartsWithAppend("\\`", t1);
    ReplaceAllMatch("\\`" + t1, "\\`", "`");
    assert ("\\`" + t1)[2..] == t1;
    StartsWithAppend("\\`", t2);
    ReplaceAllMatch(t1, "\\`", "`");
    assert t1[2..] == t2;
    StartsWithAppend("\\`", t);
    ReplaceAllMatch(t2, "\\`", "`");
    assert t2[2..] == t;
  }

  /** No backslash of the raw segments is followed by a line break. */
  lemma EscapedFenceUnbroken(a: string, b: string)
    requires '\\' !in a && '\\' !in b
    ensures DropContinuations(a + EscapedFence + b) == a + EscapedFence + b
  {
    var s := a + EscapedFence + b;
    forall i | 0 <= i < |s| - 1
      ensures s[i] != '\\' || s[i + 1] == '`'
    {
      if i < |a| {
        assert s[i] == a[i];
      } else if i >= |a| + 6 {
        assert s[i] == b[i - |a| - 6];
      } else {
        assert s[i] == EscapedFence[i - |a|];
        if i < |a| + 5 {
          assert s[i + 1] == EscapedFence[i + 1 - |a|];
        }
      }
    }
    DropContinuationsOfUnbroken(s);
  }

  /** The first segment cooks to a line break, the indentation and a fence. */
  lemma CookedOpening()
    ensures Cooked(WrapRaw[0]) == "\n  ```"
  {
    EscapedFenceUnbroken("\n  ", []);
    assert "\n  " + EscapedFence + [] == "\n  " + EscapedFence;
    ReplaceAllOfPrefix("\n  ", EscapedFence, "\\`", "`");
    UnescapeFence([]);
    assert EscapedFence + [] == EscapedFence;
    assert ReplaceAll([], "\\`", "`") == [];
  }

  /** The last segment cooks to a fence on its own indented line, then an indented empty line. */
  lemma CookedClosing()
    ensures Cooked(WrapRaw[2]) == "\n  ```\n  "
  {
    EscapedFenceUnbroken("\n  ", "\n  ");
    ReplaceAllOfPrefix("\n  ", EscapedFence + "\n  ", "\\`", "`");
    assert "\n  " + EscapedFence + "\n  " == "\n  " + (EscapedFence + "\n  ");
    UnescapeFence("\n  ");
    ReplaceAllWithout("\n  ", "\\`", "`");
  }

  /** The assembled template: the values are inserted verbatim between the cooked segments. */
  lemma WrapAssembled(lang: string, content: string)
    ensures Assembled(WrapRaw, [lang, content], 3) == "\n  ```" + lang + "\n  " + content + "\n  ```\n  "
  {
    CookedOpening();
    CookedPlain("\n  ");
    CookedClosing();
    AssembledOfThree(WrapRaw, [lang, content]);
  }

  /** Three segments around two values. */
  lemma AssembledOfThree(raw: seq<string>, values: seq<string>)
    requires |raw| == 3 && |values| == 2
    ensures Assembled(raw, values, 3) == Cooked(raw[0]) + values[0] + Cooked(raw[1]) + values[1] + Cooked(raw[2])
  {
    assert Assembled(raw, values, 1) == [] + Cooked(raw[0]) + values[0];
    assert [] + Cooked(raw[0]) + values[0] == Cooked(raw[0]) + values[0];
  }

  lemma CookedPlain(seg: string)
    requires '\\' !in seg
    ensures Cooked(seg) == seg
  {
    CookedOfPlain(seg);
  }

  /** The lines of the assembled template: the content's lines sit between the two fence lines. */
  lemma WrapLines(lang: string, content: string)
    requires '\n' !in lang
    ensures SplitLines(Assembled(WrapRaw, [lang, content], 3)) ==
      ["", "  ```" + lang] + SplitLines("  " + content) + ["  ```", "  "]
  {
    WrapAssembled(lang, content);
    var l1, l2 := "  ```" + lang, "  " + content;
    WrapTextLines(lang, content);
    SplitLinesOfLine(l1);
    SplitLinesOfLine("  ```");
    SplitLinesOfLine("  ");
    SplitAroundLines(l1, l2, "  ```", "  ");
  }

  /** The assembled template as its lines joined by line breaks. */
  lemma WrapTextLines(lang: string, content: string)
    ensures "\n  ```" + lang + "\n  " + content + "\n  ```\n  " ==
      [] + "\n" + (("  ```" + lang) + "\n" + (("  " + content) + "\n" + ("  ```" + "\n" + "  ")))
  {
  }

  /** Lines after an empty first line, with the lines of `l2` in the middle. */
  lemma SplitAroundLines(l1: string, l2: string, l3: string, l4: string)
    requires SplitLines(l1) == [l1] && SplitLines(l3) == [l3] && SplitLines(l4) == [l4]
    ensures SplitLines([] + "\n" + (l1 + "\n" + (l2 + "\n" + (l3 + "\n" + l4))))
      == ["", l1] + SplitLines(l2) + [l3, l4]
  {
    var rest2 := l2 + "\n" + (l3 + "\n" + l4);
    SplitLinesAfterLine(l2, l3, l4);
    SplitLinesOfAppend(l1, rest2);
    SplitLinesOfAppend([], l1 + "\n" + rest2);
    SplitLinesOfEmpty();
    Regroup5([], l1, SplitLines(l2), l3, l4);
  }

  lemma SplitLinesAfterLine(l2: string, l3: string, l4: string)
    requires SplitLines(l3) == [l3] && SplitLines(l4) == [l4]
    ensures SplitLines(l2 + "\n" + (l3 + "\n" + l4)) == SplitLines(l2) + ([l3] + [l4])
  {
    SplitLinesOfAppend(l3, l4);
    SplitLinesOfAppend(l2, l3 + "\n" + l4);
  }

  lemma Regroup5<T>(a: T, b: T, m: seq<T>, c: T, d: T)
    ensures [a] + ([b] + (m + ([c] + [d]))) == [a, b] + m + [c, d]
  {
  }

  /** A line that starts with two spaces has no indent, or one of two characters or more. */
  lemma IndentOfPadded(c: string)
    ensures IndentOf("  " + c).Some? ==> IndentOf("  " + c).value >= 2
  {
    var l := "  " + c;
    assert l[1..] == " " + c;
    assert (" " + c)[1..] == c;
  }

  /** The fence line `"  ```" + lang` has an indent of exactly two. */
  lemma IndentOfFence(lang: string)
    ensures IndentOf("  ```" + lang) == Some(2)
  {
    var l := "  ```" + lang;
    assert l[..2] == "  ";
    IndentOfMatch(l, 2);
  }

  /**
   * A single line of content without a backslash comes out between the
   * fences unchanged: `wrapInCodeBlock` builds the fenced block.
   */
  lemma WrapInCodeBlockOfLine(content: string, contentType: string)
    requires '\n' !in content && '\\' !in content
    ensures WrapInCodeBlock(content, contentType) == Fenced(content, contentType)
  {
    var lang := CodeBlock(contentType);
    CodeBlockIsPlain(contentType);
    var x := "```" + lang + "\n" + content + "\n```";
    LineReindented(lang, content);
    assert |WrapRaw| == 3;
    FencedFinished(lang, content, x);
  }

  /** Around a single line of content every line loses the two spaces of indentation. */
  lemma LineReindented(lang: string, content: string)
    requires '\n' !in content && '\n' !in lang
    ensures Reindented(Assembled(WrapRaw, [lang, content], 3)) == "\n" + ("```" + lang + "\n" + content + "\n```") + "\n"
  {
    var text := Assembled(WrapRaw, [lang, content], 3);
    var ls := ["", "  ```" + lang, "  " + content, "  ```", "  "];
    LinesAroundLine(lang, content);
    LineMinIndent(lang, content, ls);
    StripAroundLine(lang, content);
    JoinFive(["", "```" + lang, content, "```", ""], "```" + lang + "\n" + content + "\n```");
  }

  lemma LinesAroundLine(lang: string, content: string)
    requires '\n' !in content && '\n' !in lang
    ensures SplitLines(Assembled(WrapRaw, [lang, content], 3)) == ["", "  ```" + lang, "  " + content, "  ```", "  "]
  {
    WrapLines(lang, content);
    SplitLinesOfLine("  " + content);
  }

  lemma StripAroundLine(lang: string, content: string)
    ensures StripLines(["", "  ```" + lang, "  " + content, "  ```", "  "], 2) == ["", "```" + lang, content, "```", ""]
  {
    assert ("  ```" + lang)[2..] == "```" + lang;
    assert ("  " + content)[2..] == content;
    assert "  ```"[2..] == "```";
  }

  /** The fenced text is left alone by the trim and the unescape. */
  lemma FencedFinished(lang: string, content: string, x: string)
    requires '\\' !in lang && '\\' !in content
    requires x == "```" + lang + "\n" + content + "\n```"
    ensures Finished("\n" + x + "\n") == x
  {
    assert x[0] == '`' && x[|x| - 1] == '`';
    TrimOfPadded("\n", x, "\n");
    NoBackslashIn(lang, content, x);
    ReplaceAllWithout(x, "\\n", "\n");
  }

  /** The minimum indent of the five lines around a single line of content is two. */
  lemma LineMinIndent(lang: string, content: string, ls: seq<string>)
    requires ls == ["", "  ```" + lang, "  " + content, "  ```", "  "]
    ensures MinIndent(ls) == Some(2)
  {
    MinIndentIsLeast(ls);
    IndentOfFence(lang);
    IndentOfPadded(content);
    IndentOfFence([]);
    assert "  ```" + [] == "  ```";
    assert IndentOf("") == None;
    assert IndentOf("  ") == None;
    assert IndentOf(ls[1]) == Some(2);
    var j :| 0 <= j < |ls| && IndentOf(ls[j]) == MinIndent(ls);
    assert MinIndent(ls).value >= 2;
  }

  lemma JoinFive(stripped: seq<string>, x: string)
    requires |stripped| == 5 && stripped[0] == "" && stripped[4] == ""
    requires x == stripped[1] + "\n" + stripped[2] + "\n" + stripped[3]
    ensures JoinLines(stripped) == "\n" + x + "\n"
  {
    var j4 := JoinLines(stripped[3..]);
    assert j4 == stripped[3] + "\n" + "" by {
      assert stripped[3..][1..] == stripped[4..];
      assert JoinLines(stripped[4..]) == stripped[4];
    }
    var j3 := JoinLines(stripped[2..]);
    assert j3 == stripped[2] + "\n" + j4 by {
      assert stripped[2..][1..] == stripped[3..];
    }
    var j2 := JoinLines(stripped[1..]);
    assert j2 == stripped[1] + "\n" + j3 by {
      assert stripped[1..][1..] == stripped[2..];
    }
    assert JoinLines(stripped) == stripped[0] + "\n" + j2;
    assert "\n" + x + "\n" == stripped[0] + "\n" + (stripped[1] + "\n" + (stripped[2] + "\n" + (stripped[3] + "\n" + stripped[4])));
  }

  lemma NoBackslashIn(lang: string, content: string, x: string)
    requires '\\' !in lang && '\\' !in content
    requires x == "```" + lang + "\n" + content + "\n```"
    ensures '\\' !in x
  {
  }

  lemma WrapInCodeBlockExample()
    ensures WrapInCodeBlock("x", "application/json") == "```json\nx\n```"
  {
    CodeBlockExamples();
    WrapInCodeBlockOfLine("x", "application/json");
    JsonBlockText();
  }

  lemma JsonBlockText()
    ensures "```" + "json" + "\n" + "x" + "\n```" == "```json\nx\n```"
  {
  }

  // Any content

  /**
   * Whatever the content, the block opens with the three backticks and the
   * language and closes with three backticks: both fence lines have an
   * indent of two, so the common indent is one or two and stops short of
   * the backticks.
   */
  lemma WrapInCodeBlockFences(content: string, contentType: string)
    ensures |WrapInCodeBlock(content, contentType)| >= 6 + |CodeBlock(contentType)|
    ensures WrapInCodeBlock(content, contentType)[..3 + |CodeBlock(contentType)|] == "```" + CodeBlock(contentType)
    ensures WrapInCodeBlock(content, contentType)[|WrapInCodeBlock(content, contentType)| - 3..] == "```"
  {
    var lang := CodeBlock(contentType);
    CodeBlockIsPlain(contentType);
    var w, j := FenceReindented(lang, content);
    var open, q := "```" + lang, "\n" + j + "\n" + w;
    var x := open + (q + "```");
    assert |WrapRaw| == 3;
    FencedTrim(w, x);
    FencesSurviveUnescape(open, q);
    FenceEnds(open, ReplaceAll(q, "\\n", "\n"));
  }

  /**
   * After the strip the text is the block between the fences, padded on
   * both sides by a line break and the one space a common indent of one
   * leaves, or none.
   */
  lemma FenceReindented(lang: string, content: string) returns (w: string, j: string)
    requires '\n' !in lang
    ensures w == "" || w == " "
    ensures Reindented(Assembled(WrapRaw, [lang, content], 3)) ==
      ("\n" + w) + ("```" + lang + (("\n" + j + "\n" + w) + "```")) + ("\n" + w)
  {
    var lines := SplitLines("  " + content);
    var ls := ["", "  ```" + lang] + lines + ["  ```", "  "];
    WrapLines(lang, content);
    var m := FenceMinIndent(lang, lines, ls);
    w := "  "[m..];
    var mid := StripLines(lines, m);
    j := JoinLines(mid);
    StripAroundLines(lang, lines, m);
    JoinAroundLines("", w + "```" + lang, mid, w + "```", w);
    FenceRegroup(w, lang, j, "```" + lang + (("\n" + j + "\n" + w) + "```"));
  }

  lemma FenceEnds(open: string, middle: string)
    ensures |open + middle + "```"| >= |open| + 3
    ensures (open + middle + "```")[..|open|] == open
    ensures (open + middle + "```")[|open + middle + "```"| - 3..] == "```"
  {
  }

  /** The common indent of the lines around the content is one or two. */
  lemma FenceMinIndent(lang: string, lines: seq<string>, ls: seq<string>) returns (m: nat)
    requires ls == ["", "  ```" + lang] + lines + ["  ```", "  "]
    ensures MinIndent(ls) == Some(m) && 1 <= m <= 2
  {
    MinIndentIsLeast(ls);
    IndentOfFence(lang);
    assert IndentOf(ls[1]) == Some(2);
    m := MinIndent(ls).value;
  }

  /** Stripping one or two characters from the lines around the content. */
  lemma StripAroundLines(lang: string, lines: seq<string>, m: nat)
    requires 1 <= m <= 2
    ensures StripLines(["", "  ```" + lang] + lines + ["  ```", "  "], m) ==
      ["", "  "[m..] + "```" + lang] + StripLines(lines, m) + ["  "[m..] + "```", "  "[m..]]
  {
    assert ("  ```" + lang)[m..] == "  "[m..] + "```" + lang;
    assert "  ```"[m..] == "  "[m..] + "```";
  }

  /** Joining two lines, the middle lines and two more. */
  lemma JoinAroundLines(a: string, b: string, mid: seq<string>, c: string, d: string)
    requires |mid| > 0
    ensures JoinLines([a, b] + mid + [c, d]) == a + "\n" + b + "\n" + JoinLines(mid) + "\n" + c + "\n" + d
  {
    JoinOfAppend([a, b] + mid, [c, d], "\n");
    JoinOfAppend([a, b], mid, "\n");
    assert JoinLines([a, b]) == a + "\n" + b by {
      assert [a, b][1..] == [b];
    }
    assert JoinLines([c, d]) == c + "\n" + d by {
      assert [c, d][1..] == [d];
    }
  }

  lemma FenceRegroup(w: string, lang: string, j: string, x: string)
    requires x == "```" + lang + (("\n" + j + "\n" + w) + "```")
    ensures "" + "\n" + (w + "```" + lang) + "\n" + j + "\n" + (w + "```") + "\n" + w == ("\n" + w) + x + ("\n" + w)
  {
  }

  /** The trim stops at the backticks on either side. */
  lemma FencedTrim(w: string, x: string)
    requires w == "" || w == " "
    requires |x| >= 3 && x[0] == '`' && x[|x| - 1] == '`'
    ensures Trim(("\n" + w) + x + ("\n" + w)) == x
  {
    assert AllWhitespace("\n" + w) by {
      assert forall i :: 0 <= i < |"\n" + w| ==> ("\n" + w)[i] in "\n ";
    }
    TrimOfPadded("\n" + w, x, "\n" + w);
  }

  /** The unescape leaves the opening fence and the closing backticks in place. */
  lemma FencesSurviveUnescape(open: string, q: string)
    requires '\\' !in open
    ensures ReplaceAll(open + (q + "```"), "\\n", "\n") == open + ReplaceAll(q, "\\n", "\n") + "```"
  {
    ReplaceAllOfPrefix(open, q + "```", "\\n", "\n");
    ReplaceAllOfAppend(q, "```", "\\n", "\n");
    ReplaceAllWithout("```", "\\n", "\n");
  }

  // Content of several lines

  /**
   * Content whose later lines are indented less than the template lowers the
   * common indent: the fences and the first content line keep a space, and
   * the later line loses its own.
   */
  lemma WrapInCodeBlockShiftsIndent()
    ensures WrapInCodeBlock("a\n b", "application/typescript") == "```ts\n a\nb\n ```"
  {
    CodeBlockExamples();
    var x := "```ts\n a\nb\n ```";
    ShiftedReindented();
    assert |WrapRaw| == 3;
    ShiftedFinished(x);
  }

  lemma ShiftedLines()
    ensures SplitLines(Assembled(WrapRaw, ["ts", "a\n b"], 3)) == ["", "  ```ts", "  a", " b", "  ```", "  "]
  {
    WrapLines("ts", "a\n b");
    assert "  " + "a\n b" == "  a" + "\n" + " b";
    SplitLinesOfAppend("  a", " b");
    SplitLinesOfLine("  a");
    SplitLinesOfLine(" b");
    assert SplitLines("  " + "a\n b") == ["  a"] + [" b"];
    assert "  ```" + "ts" == "  ```ts";
    assert ["", "  ```ts"] + (["  a"] + [" b"]) + ["  ```", "  "] == ["", "  ```ts", "  a", " b", "  ```", "  "];
  }

  lemma ShiftedMinIndent(ls: seq<string>)
    requires ls == ["", "  ```ts", "  a", " b", "  ```", "  "]
    ensures MinIndent(ls) == Some(1)
  {
    MinIndentIsLeast(ls);
    assert " b"[..1] == " ";
    IndentOfMatch(" b", 1);
    assert IndentOf(ls[3]) == Some(1);
  }

  lemma ShiftedStrip()
    ensures StripLines(["", "  ```ts", "  a", " b", "  ```", "  "], 1) == ["", " ```ts", " a", "b", " ```", " "]
  {
    assert "  ```ts"[1..] == " ```ts";
    assert "  a"[1..] == " a";
    assert " b"[1..] == "b";
    assert "  ```"[1..] == " ```";
    assert "  "[1..] == " ";
  }

  lemma ShiftedJoin(st: seq<string>)
    requires st == ["", " ```ts", " a", "b", " ```", " "]
    ensures JoinLines(st) == "\n " + "```ts\n a\nb\n ```" + "\n "
  {
    var j5 := JoinLines(st[4..]);
    assert j5 == " ```" + "\n" + " " by {
      assert st[4..][1..] == st[5..];
      assert JoinLines(st[5..]) == " ";
    }
    var j4 := JoinLines(st[3..]);
    assert j4 == "b" + "\n" + j5 by {
      assert st[3..][1..] == st[4..];
    }
    var j3 := JoinLines(st[2..]);
    assert j3 == " a" + "\n" + j4 by {
      assert st[2..][1..] == st[3..];
    }
    var j2 := JoinLines(st[1..]);
    assert j2 == " ```ts" + "\n" + j3 by {
      assert st[1..][1..] == st[2..];
    }
    assert JoinLines(st) == "" + "\n" + j2;
  }

  lemma ShiftedReindented()
    ensures Reindented(Assembled(WrapRaw, ["ts", "a\n b"], 3)) == "\n " + "```ts\n a\nb\n ```" + "\n "
  {
    var ls := ["", "  ```ts", "  a", " b", "  ```", "  "];
    ShiftedLines();
    ShiftedMinIndent(ls);
    ShiftedStrip();
    ShiftedJoin(["", " ```ts", " a", "b", " ```", " "]);
  }

  lemma ShiftedFinished(x: string)
    requires x == "```ts\n a\nb\n ```"
    ensures Finished("\n " + x + "\n ") == x
  {
    assert x[0] == '`' && x[|x| - 1] == '`';
    TrimOfPadded("\n ", x, "\n ");
    ReplaceAllWithout(x, "\\n", "\n");
  }

  /** The fenced block `wrapInCodeBlock` is meant to build: the content verbatim between the fence lines. */
  function Fenced(content: string, contentType: string): string {
    "```" + CodeBlock(contentType) + "\n" + content + "\n```"
  }

  /**
   * The lines of a fenced block are the opening fence with its language,
   * every line of the content unchanged, and the closing fence.
   */
  lemma FencedLines(content: string, contentType: string)
    ensures SplitLines(Fenced(content, contentType)) ==
      ["```" + CodeBlock(contentType)] + SplitLines(content) + ["```"]
  {
    var lang := CodeBlock(contentType);
    CodeBlockIsPlain(contentType);
    var open := "```" + lang;
    assert Fenced(content, contentType) == open + "\n" + (content + "\n" + "```");
    SplitLinesOfAppend(open, content + "\n" + "```");
    SplitLinesOfAppend(content, "```");
    SplitLinesOfLine(open);
    SplitLinesOfLine("```");
  }

  /** The shifted example is not the fenced block. */
  lemma WrapInCodeBlockMissesFence()
    ensures WrapInCodeBlock("a\n b", "application/typescript") != Fenced("a\n b", "application/typescript")
  {
    WrapInCodeBlockShiftsIndent();
    CodeBlockExamples();
    assert Fenced("a\n b", "application/typescript")[6] == 'a';
    assert "```ts\n a\nb\n ```"[6] == ' ';
  }

  // Content holding an escaped line break

  /**
   * The final unescape runs over the interpolated content too: a backslash
   * followed by `n` in the content, as in the source text of a string
   * literal, comes out as a real line break.
   */
  lemma WrapInCodeBlockUnescapesContent()
    ensures WrapInCodeBlock("a\\nb", "text/plain") == Fenced("a\nb", "text/plain")
    ensures WrapInCodeBlock("a\\nb", "text/plain") != Fenced("a\\nb", "text/plain")
  {
    UnescapedBlock();
    FencedPlain("a\nb");
    FencedPlain("a\\nb");
    assert |"```txt\na\nb\n```"| == 14;
  }

  lemma FencedPlain(content: string)
    ensures Fenced(content, "text/plain") == "```txt\n" + content + "\n```"
  {
    assert "text/plain" !in FencedCodeBlockLangs;
  }

  lemma UnescapedBlock()
    ensures WrapInCodeBlock("a\\nb", "text/plain") == "```txt\na\nb\n```"
  {
    assert CodeBlock("text/plain") == "txt" by {
      assert "text/plain" !in FencedCodeBlockLangs;
    }
    LineReindented("txt", "a\\nb");
    assert |WrapRaw| == 3;
    EscapedBreakFinished("```" + "txt" + "\n" + "a\\nb" + "\n```");
  }

  lemma EscapedBreakFinished(x: string)
    requires x == "```" + "txt" + "\n" + "a\\nb" + "\n```"
    ensures Finished("\n" + x + "\n") == "```txt\na\nb\n```"
  {
    assert x[0] == '`' && x[|x| - 1] == '`';
    TrimOfPadded("\n", x, "\n");
    EscapedBreakUnescaped(x);
  }

  lemma EscapedBreakUnescaped(x: string)
    requires x == "```" + "txt" + "\n" + "a\\nb" + "\n```"
    ensures ReplaceAll(x, "\\n", "\n") == "```txt\na\nb\n```"
  {
    assert x == "```txt\na" + ("\\n" + "b\n```");
    UnescapeOneBreak("```txt\na", "b\n```");
  }

  /** Between text without a backslash, an escaped line break becomes a real one. */
  lemma UnescapeOneBreak(a: string, t: string)
    requires '\\' !in a && '\\' !in t
    ensures ReplaceAll(a + ("\\n" + t), "\\n", "\n") == a + ("\n" + t)
  {
    ReplaceAllOfPrefix(a, "\\n" + t, "\\n", "\n");
    StartsWithAppend("\\n", t);
    ReplaceAllMatch("\\n" + t, "\\n", "\n");
    assert ("\\n" + t)[2..] == t;
    ReplaceAllWithout(t, "\\n", "\n");
  }
}
