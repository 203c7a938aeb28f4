/**
 * The string helpers of string-utils.ts: first-letter case changes, space
 * removal, the type-safe `replace`, `stripPrefix` and `interpolate`.
 */
module StringUtils {
  import opened Chars
  import opened Text

  /** `upperFirst`: the first character upper-cased, the rest kept; `""` stays `""`. */
  function UpperFirst(s: string): (r: string)
    ensures |r| == |s|
    ensures |s| > 0 ==> r[0] == Upper(s[0]) && r[1..] == s[1..]
  {
    if |s| == 0 then "" else [Upper(s[0])] + s[1..]
  }

  /** `lowerFirst`: the first character lower-cased, the rest kept; `""` stays `""`. */
  function LowerFirst(s: string): (r: string)
    ensures |r| == |s|
    ensures |s| > 0 ==> r[0] == Lower(s[0]) && r[1..] == s[1..]
  {
    if |s| == 0 then "" else [Lower(s[0])] + s[1..]
  }

  /** Both change only the case of one letter, and applying either twice is applying it once. */
  lemma FirstLetterCase(s: string)
    ensures SameUpToCase(UpperFirst(s), s) && SameUpToCase(LowerFirst(s), s)
    ensures UpperFirst(UpperFirst(s)) == UpperFirst(s)
    ensures LowerFirst(LowerFirst(s)) == LowerFirst(s)
    ensures UpperFirst(LowerFirst(s)) == UpperFirst(s)
  {
    if |s| > 0 {
      FoldOfCaseMapping(s[0]);
      UpperIdempotent(s[0]);
      LowerIdempotent(s[0]);
      assert forall i :: 1 <= i < |s| ==> UpperFirst(s)[i] == s[i] && LowerFirst(s)[i] == s[i];
    }
  }

  predicate IsNotSpace(c: char) {
    c != ' '
  }

  /** `eatWhitespace`: `str.replace(/ /g, "")`. */
  function EatWhitespace(s: string): (r: string)
    ensures ' ' !in r
  {
    var r := ReplaceAll(s, " ", "");
    EatWhitespaceFilters(s);
    r
  }

  /** Removing every space is keeping every other character, in order. */
  lemma {:induction false} EatWhitespaceFilters(s: string)
    ensures ReplaceAll(s, " ", "") == Filter(s, IsNotSpace)
  {
    if |s| > 0 {
      StartsWithChar(s, ' ');
      EatWhitespaceFilters(s[1..]);
      if s[0] == ' ' {
        ReplaceAllMatch(s, " ", "");
      } else {
        ReplaceAllStep(s, " ", "");
      }
    }
  }

  /**
   * `replace(target, searchValue, replaceValue, all)`: every occurrence when
   * `all`, else the first. The replacement holds no `$`, so it is inserted
   * literally.
   */
  function Replace(target: string, search: string, replacement: string, all: bool): string
    requires '$' !in replacement
  {
    if all then ReplaceAll(target, search, replacement) else ReplaceFirst(target, search, replacement)
  }

  /**
   * `replace` with `all` replaces the leftmost occurrence and goes on after
   * it, and leaves a text without occurrences alone; without `all` it replaces
   * the leftmost occurrence only.
   */
  lemma ReplaceSpec(target: string, search: string, replacement: string)
    requires '$' !in replacement && |search| > 0
    ensures FirstOccurrence(target, search).None? ==>
              Replace(target, search, replacement, true) == target
              && Replace(target, search, replacement, false) == target
    ensures FirstOccurrence(target, search).Some? ==>
              var i := FirstOccurrence(target, search).value;
              i + |search| <= |target|
              && OccursAt(target, search, i)
              && (forall j :: 0 <= j < i ==> !OccursAt(target, search, j))
              && Replace(target, search, replacement, false)
                 == target[..i] + replacement + target[i + |search|..]
              && Replace(target, search, replacement, true)
                 == target[..i] + replacement + Replace(target[i + |search|..], search, replacement, true)
  {
    FirstOccurrenceIsLeftmost(target, search);
    match FirstOccurrence(target, search)
    case None =>
      ReplaceAllNone(target, search, replacement);
    case Some(i) =>
      ReplaceAllAt(target, search, replacement, i);
  }

  /**
   * The test of `replace`: both occurrences of `${ENV_VAR}` in
   * "The variable is ${ENV_VAR} with extra ${ENV_VAR}" are replaced.
   */
  lemma ReplaceExample()
    ensures Replace("The variable is " + "${ENV_VAR}" + " with extra " + "${ENV_VAR}", "${ENV_VAR}", "Coolbeans", true)
            == "The variable is " + "Coolbeans" + " with extra " + "Coolbeans"
  {
    ReplaceBothOccurrences("The variable is ", " with extra ", "${ENV_VAR}", "Coolbeans");
  }

  /** Two occurrences, each after text that cannot start one, are both replaced. */
  lemma ReplaceBothOccurrences(a: string, b: string, pat: string, rep: string)
    requires |pat| > 0 && pat[0] !in a && pat[0] !in b
    ensures ReplaceAll(a + pat + b + pat, pat, rep) == a + rep + b + rep
  {
    assert a + pat + b + pat == a + (pat + (b + pat));
    ReplaceAllAfter(a, pat, b + pat, rep);
    assert b + pat == b + (pat + []);
    ReplaceAllAfter(b, pat, [], rep);
    assert ReplaceAll([], pat, rep) == [];
  }

  /** An occurrence after text that cannot start one is replaced, and the scan goes on after it. */
  lemma ReplaceAllAfter(a: string, pat: string, x: string, rep: string)
    requires |pat| > 0 && pat[0] !in a
    ensures ReplaceAll(a + (pat + x), pat, rep) == a + rep + ReplaceAll(x, pat, rep)
  {
    StartsWithAppend(pat, x);
    ReplaceAllOfPrefix(a, pat + x, pat, rep);
    ReplaceAllMatch(pat + x, pat, rep);
    assert (pat + x)[|pat|..] == x;
  }

  /** `stripPrefix(target, prefix)`: every occurrence of `prefix` deleted, not only a leading one. */
  function StripPrefix(target: string, prefix: string): string {
    Replace(target, prefix, "", true)
  }

  /** A leading occurrence is deleted and the rest is stripped in turn; an empty prefix strips nothing. */
  lemma StripPrefixSpec(prefix: string, rest: string)
    ensures |prefix| > 0 ==> StripPrefix(prefix + rest, prefix) == StripPrefix(rest, prefix)
    ensures StripPrefix(rest, "") == rest
  {
    if |prefix| > 0 {
      StartsWithAppend(prefix, rest);
      ReplaceAllMatch(prefix + rest, prefix, "");
      assert (prefix + rest)[|prefix|..] == rest;
    }
    InterposeNothing(rest);
  }

  /** An occurrence after the start is deleted too. */
  lemma StripPrefixExample()
    ensures StripPrefix("X_PORT_X_", "X_") == "PORT_"
  {
    var p := "X_";
    assert "X_PORT_X_" == p + ("PORT_" + p);
    StripPrefixSpec(p, "PORT_" + p);
    ReplaceAllOfPrefix("PORT_", p, p, "");
    StripPrefixSpec(p, []);
    assert p + [] == p;
    ReplaceAllWithout([], p, "");
  }

  /** `"{{" + key + "}}"`. */
  function Placeholder(key: string): string {
    "{{" + key + "}}"
  }

  /**
   * The fold of `interpolate`: for each entry in order, the first
   * `{{key}}` still present in the accumulated text is replaced by the value.
   */
  function Interpolated(str: string, vars: seq<(string, string)>): string
    decreases |vars|
  {
    if |vars| == 0 then str
    else Interpolated(ReplaceFirst(str, Placeholder(vars[0].0), vars[0].1), vars[1..])
  }

  /** `interpolate(str, vars)`, the entries of `vars` in `Object.entries` order. */
  method Interpolate(str: string, vars: seq<(string, string)>) returns (r: string)
    requires forall i :: 0 <= i < |vars| ==> '$' !in vars[i].1
    ensures r == Interpolated(str, vars)
  {
    var acc := str;
    for i := 0 to |vars|
      invariant Interpolated(acc, vars[i..]) == Interpolated(str, vars)
    {
      assert vars[i..][1..] == vars[i + 1..];
      acc := ReplaceFirst(acc, Placeholder(vars[i].0), vars[i].1);
    }
    assert |vars[|vars|..]| == 0;
    r := acc;
  }

  /** A text without `{` has no placeholder and comes back unchanged. */
  lemma {:induction false} InterpolatedWithoutBraces(str: string, vars: seq<(string, string)>)
    requires '{' !in str
    ensures Interpolated(str, vars) == str
    decreases |vars|
  {
    if |vars| > 0 {
      ReplaceFirstWithout(str, Placeholder(vars[0].0), vars[0].1);
      InterpolatedWithoutBraces(str, vars[1..]);
    }
  }

  /**
   * The test of `interpolate`: each placeholder of
   * "My Name Is {{name}}, I'm {{wow_look_at_me}} years old" is replaced by its value.
   */
  lemma InterpolateExample()
    ensures Interpolated("My Name Is " + "{{name}}" + ", I'm " + "{{wow_look_at_me}}" + " years old",
                         [("name", "curtis"), ("wow_look_at_me", "22")])
            == "My Name Is " + "curtis" + ", I'm " + "22" + " years old"
  {
    assert Placeholder("name") == "{{name}}";
    assert Placeholder("wow_look_at_me") == "{{wow_look_at_me}}";
    InterpolateTwo("My Name Is ", ", I'm ", " years old", "name", "curtis", "wow_look_at_me", "22");
  }

  /** Two placeholders in entry order, in a text with no other `{`, are replaced by their values. */
  lemma InterpolateTwo(a: string, b: string, c: string, k1: string, v1: string, k2: string, v2: string)
    requires '{' !in a && '{' !in b && '{' !in v1
    ensures Interpolated(a + Placeholder(k1) + b + Placeholder(k2) + c, [(k1, v1), (k2, v2)])
            == a + v1 + b + v2 + c
  {
    var p1, p2 := Placeholder(k1), Placeholder(k2);
    var t := a + p1 + b + p2 + c;
    var s1 := a + v1 + b + p2 + c;
    assert ReplaceFirst(t, p1, v1) == s1 by {
      assert t == a + (p1 + (b + p2 + c));
      ReplaceFirstAfter(a, p1, b + p2 + c, v1);
    }
    assert ReplaceFirst(s1, p2, v2) == a + v1 + b + v2 + c by {
      assert s1 == (a + v1 + b) + (p2 + c);
      ReplaceFirstAfter(a + v1 + b, p2, c, v2);
    }
    InterpolatedStep(t, k1, v1, [(k2, v2)]);
    InterpolatedStep(s1, k2, v2, []);
  }

  /** One step of the fold. */
  lemma InterpolatedStep(str: string, k: string, v: string, rest: seq<(string, string)>)
    ensures Interpolated(str, [(k, v)] + rest) == Interpolated(ReplaceFirst(str, Placeholder(k), v), rest)
  {
    assert ([(k, v)] + rest)[1..] == rest;
  }

  /** The first occurrence after text that cannot start one is replaced. */
  lemma ReplaceFirstAfter(a: string, pat: string, x: string, rep: string)
    requires |pat| > 0 && pat[0] !in a
    ensures ReplaceFirst(a + (pat + x), pat, rep) == a + rep + x
  {
    StartsWithAppend(pat, x);
    ReplaceFirstOfPrefix(a, pat + x, pat, rep);
    ReplaceFirstOfMatch(pat + x, pat, rep);
    assert (pat + x)[|pat|..] == x;
  }

  /** Only the first placeholder of a key is replaced: "{{a}}{{a}}" becomes "x{{a}}". */
  lemma InterpolateFirstOnly()
    ensures Interpolated("{{a}}" + "{{a}}", [("a", "x")]) == "x" + "{{a}}"
  {
    assert Placeholder("a") == "{{a}}";
    InterpolateOnce(Placeholder("a"), "a", "x");
  }

  lemma InterpolateOnce(p: string, k: string, v: string)
    requires p == Placeholder(k)
    ensures Interpolated(p + p, [(k, v)]) == v + p
  {
    StartsWithAppend(p, p);
    ReplaceFirstOfMatch(p + p, p, v);
    assert (p + p)[|p|..] == p;
    assert [(k, v)][1..] == [];
  }
}
