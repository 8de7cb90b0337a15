/**
 * style-dictionary.config.js: how design tokens become CSS custom properties. Light mode
 * keeps the tokens without an `inverse` path segment and names them by their path with a
 * trailing `-default` removed; dark mode keeps the `inverse` tokens, strips `-inverse` from
 * their names and writes them inside a `prefers-color-scheme: dark` media query, turning a
 * reference `{a.b.c}` into `var(--a-b-c)`.
 */
module StyleDictionary {
  import opened Wrappers
  import opened Text

  /** The token's value before transforms, as written in the token file. */
  datatype Original = OriginalString(s: string) | OriginalOther

  /** A token after the library's transforms; an absent comment is the empty string. */
  datatype Token = Token(path: seq<string>, name: string, value: string, original: Option<Original>, comment: string)

  /** `s.replace(/<suffix>$/, "")` for a literal suffix. */
  function StripSuffix(s: string, suffix: string): (r: string)
    ensures EndsWith(s, suffix) ==> r + suffix == s
    ensures !EndsWith(s, suffix) ==> r == s
  {
    if EndsWith(s, suffix) then s[..|s| - |suffix|] else s
  }

  /** `stripDefaultTransform`: the path joined with `-`, less a trailing `-default`. */
  function StripDefaultName(path: seq<string>): string {
    StripSuffix(Join(path, "-"), "-default")
  }

  lemma EndsWithAppend(a: string, b: string, suffix: string)
    requires |suffix| <= |b|
    ensures EndsWith(a + b, suffix) <==> EndsWith(b, suffix)
  {
    assert (a + b)[|a + b| - |suffix|..] == b[|b| - |suffix|..];
  }

  lemma StripSuffixAppended(a: string, suffix: string)
    ensures StripSuffix(a + suffix, suffix) == a
  {
    assert (a + suffix)[|a + suffix| - |suffix|..] == suffix;
    assert (a + suffix)[..|a|] == a;
  }

  /** Regrouping a concatenation; used by `LongLast`. */
  lemma AppendPieces(a: string, b: string, c: string)
    ensures a + b + c == a + (b + c)
  {
  }

  /** `<init>-<last>` ends in `-default` exactly when `last` is `default` or itself ends in `-default`. */
  lemma JoinedEndsWithDefault(init: seq<string>, last: string)
    requires |init| >= 1
    ensures EndsWith(Join(init + [last], "-"), "-default") <==> last == "default" || EndsWith(last, "-default")
  {
    JoinSuffixed(init, last);
    var a := Join(init, "-");
    if |last| >= 8 {
      LongLast(a, last);
    } else if |last| == 7 {
      SevenLast(a, last);
    } else {
      ShortNotDefault(a, last);
    }
  }

  lemma LongLast(a: string, last: string)
    requires |last| >= 8
    ensures EndsWith(a + ("-" + last), "-default") <==> EndsWith(last, "-default")
    ensures last != "default"
  {
    AppendPieces(a, "-", last);
    EndsWithAppend(a + "-", last, "-default");
  }

  lemma SevenLast(a: string, last: string)
    requires |last| == 7
    ensures EndsWith(a + ("-" + last), "-default") <==> last == "default"
    ensures !EndsWith(last, "-default")
  {
    EndsWithAppend(a, "-" + last, "-default");
    DashConcat("default");
    assert ("-" + last)[1..] == last;
    assert "-default"[1..] == "default";
  }

  lemma ShortNotDefault(a: string, last: string)
    requires |last| < 7
    ensures !EndsWith(a + ("-" + last), "-default")
  {
    var j := a + ("-" + last);
    var k := 7 - |last|;
    assert j[|a|] == '-';
    assert "-default"[k] != '-';
    assert |j| >= 8 ==> j[|j| - 8..][k] == j[|a|];
  }

  /** A `default` variant is named by the rest of its path; a path ending otherwise keeps its joined name. */
  lemma StripDefaultNameSpec(init: seq<string>, last: string)
    requires |init| >= 1
    ensures last == "default" ==> StripDefaultName(init + [last]) == Join(init, "-")
    ensures last != "default" && !EndsWith(last, "-default") ==> StripDefaultName(init + [last]) == Join(init + [last], "-")
  {
    JoinedEndsWithDefault(init, last);
    if last == "default" {
      LightName(init);
    }
  }

  /** `token.path.includes("inverse")`. */
  predicate IsInverse(t: Token) {
    "inverse" in t.path
  }

  /** The tokens the dark format writes, in dictionary order. */
  function InverseTokens(tokens: seq<Token>): seq<Token> {
    if tokens == [] then []
    else (if IsInverse(tokens[0]) then [tokens[0]] else []) + InverseTokens(tokens[1..])
  }

  /** The tokens the light file's filter `!token.path.includes("inverse")` keeps, in order. */
  function LightTokens(tokens: seq<Token>): seq<Token> {
    if tokens == [] then []
    else (if !IsInverse(tokens[0]) then [tokens[0]] else []) + LightTokens(tokens[1..])
  }

  /** The dark set is the tokens with an `inverse` segment, the light set the others. */
  lemma {:induction false} TokenFilterMembers(tokens: seq<Token>, t: Token)
    ensures t in InverseTokens(tokens) <==> t in tokens && IsInverse(t)
    ensures t in LightTokens(tokens) <==> t in tokens && !IsInverse(t)
  {
    if tokens != [] {
      TokenFilterMembers(tokens[1..], t);
      assert tokens == [tokens[0]] + tokens[1..];
    }
  }

  /** Light and dark split the dictionary: every token goes to exactly one of them. */
  lemma {:induction false} LightDarkPartition(tokens: seq<Token>)
    ensures multiset(LightTokens(tokens)) + multiset(InverseTokens(tokens)) == multiset(tokens)
  {
    if tokens != [] {
      LightDarkPartition(tokens[1..]);
      assert tokens == [tokens[0]] + tokens[1..];
    }
  }

  /** The dark filter keeps dictionary order: filtering a concatenation filters each part in turn. */
  lemma {:induction false} InverseTokensAppend(a: seq<Token>, b: seq<Token>)
    ensures InverseTokens(a + b) == InverseTokens(a) + InverseTokens(b)
  {
    if a == [] {
      assert a + b == b;
    } else {
      var head := if IsInverse(a[0]) then [a[0]] else [];
      assert (a + b)[0] == a[0];
      assert (a + b)[1..] == a[1..] + b;
      assert InverseTokens(a + b) == head + InverseTokens(a[1..] + b);
      InverseTokensAppend(a[1..], b);
      assert InverseTokens(a) == head + InverseTokens(a[1..]);
    }
  }

  /** The light filter keeps dictionary order likewise. */
  lemma {:induction false} LightTokensAppend(a: seq<Token>, b: seq<Token>)
    ensures LightTokens(a + b) == LightTokens(a) + LightTokens(b)
  {
    if a == [] {
      assert a + b == b;
    } else {
      var head := if !IsInverse(a[0]) then [a[0]] else [];
      assert (a + b)[0] == a[0];
      assert (a + b)[1..] == a[1..] + b;
      assert LightTokens(a + b) == head + LightTokens(a[1..] + b);
      LightTokensAppend(a[1..], b);
      assert LightTokens(a) == head + LightTokens(a[1..]);
    }
  }

  /** `--` and the token name less a trailing `-inverse`. */
  function VarName(name: string): string {
    "--" + StripSuffix(name, "-inverse")
  }

  /** A token pair `<p>.default` / `<p>.inverse` defines the same CSS variable in both modes (dark names joined with `-`). */
  lemma LightDarkSameVariable(p: seq<string>)
    requires |p| >= 1
    ensures "--" + StripDefaultName(p + ["default"]) == VarName(Join(p + ["inverse"], "-"))
  {
    LightName(p);
    DarkName(p);
  }

  lemma LightName(p: seq<string>)
    requires |p| >= 1
    ensures StripDefaultName(p + ["default"]) == Join(p, "-")
  {
    JoinSuffixed(p, "default");
    DashConcat("default");
    StripSuffixAppended(Join(p, "-"), "-default");
  }

  lemma DarkName(p: seq<string>)
    requires |p| >= 1
    ensures VarName(Join(p + ["inverse"], "-")) == "--" + Join(p, "-")
  {
    JoinSuffixed(p, "inverse");
    DashConcat("inverse");
    StripSuffixAppended(Join(p, "-"), "-inverse");
  }

  /** The two literal suffixes as `-` and a segment; used by `SevenLast`, `LightName` and `DarkName`. */
  lemma DashConcat(x: string)
    ensures x == "default" ==> "-" + x == "-default"
    ensures x == "inverse" ==> "-" + x == "-inverse"
  {
  }

  lemma JoinSuffixed(p: seq<string>, x: string)
    requires |p| >= 1
    ensures Join(p + [x], "-") == Join(p, "-") + ("-" + x)
  {
    JoinSnoc(p, x, "-");
  }

  predicate IsLineTerminator(c: char) {
    c == '\n' || c == '\r' || c == '\U{2028}' || c == '\U{2029}'
  }

  /** `v.match(/^\{.+\}$/)`: braces around at least one character, none a line terminator. */
  predicate IsReference(v: string) {
    |v| >= 3 && v[0] == '{' && v[|v| - 1] == '}' &&
    forall i :: 1 <= i < |v| - 1 ==> !IsLineTerminator(v[i])
  }

  /** `var(--${v.slice(1, -1).replace(/\./g, "-")})`. */
  function ReferenceVar(v: string): string
    requires |v| >= 2
  {
    "var(--" + ReplaceAll(v[1..|v| - 1], '.', '-') + ")"
  }

  /** The value line 53-64 settles on: a string reference is rewritten when references are output. */
  function ResolvedValue(t: Token, outputReferences: bool): string {
    if outputReferences && t.original.Some? && t.original.value.OriginalString? && IsReference(t.original.value.s)
    then ReferenceVar(t.original.value.s)
    else t.value
  }

  lemma {:induction false} ReplaceDotsInJoin(segs: seq<string>)
    requires forall i :: 0 <= i < |segs| ==> '.' !in segs[i]
    ensures ReplaceAll(Join(segs, "."), '.', '-') == Join(segs, "-")
  {
    if |segs| > 1 {
      ReplaceDotsInJoin(segs[1..]);
      var b := Join(segs[1..], ".");
      assert Join(segs, ".") == segs[0] + "." + b;
      ReplaceAllAppend(segs[0] + ".", b, '.', '-');
      ReplaceAllAppend(segs[0], ".", '.', '-');
      ReplaceAllAbsent(segs[0], '.', '-');
      assert ReplaceAll(".", '.', '-') == "-";
    } else if |segs| == 1 {
      ReplaceAllAbsent(segs[0], '.', '-');
    }
  }

  /** A reference `{a.b.c}` to a token path becomes `var(--a-b-c)`, the variable that token defines. */
  lemma ReferenceRewrite(t: Token, segs: seq<string>)
    requires forall i :: 0 <= i < |segs| ==> '.' !in segs[i] && forall j :: 0 <= j < |segs[i]| ==> !IsLineTerminator(segs[i][j])
    requires Join(segs, ".") != ""
    requires t.original == Some(OriginalString("{" + Join(segs, ".") + "}"))
    ensures ResolvedValue(t, true) == "var(--" + Join(segs, "-") + ")"
    ensures ResolvedValue(t, false) == t.value
  {
    var v := "{" + Join(segs, ".") + "}";
    assert v[1..|v| - 1] == Join(segs, ".");
    JoinFree(segs, ".");
    ReplaceDotsInJoin(segs);
  }

  /** Any other value passes through unchanged, whether or not references are output: a missing original, a non-string original, or a string that is not `{...}`. */
  lemma ValuePassesThrough(t: Token, outputReferences: bool)
    requires !(t.original.Some? && t.original.value.OriginalString? && IsReference(t.original.value.s))
    ensures ResolvedValue(t, outputReferences) == t.value
  {
  }

  /** A join of line-terminator-free parts with `.` has no line terminator. */
  lemma {:induction false} JoinFree(segs: seq<string>, sep: string)
    requires forall i :: 0 <= i < |segs| ==> forall j :: 0 <= j < |segs[i]| ==> !IsLineTerminator(segs[i][j])
    requires forall j :: 0 <= j < |sep| ==> !IsLineTerminator(sep[j])
    ensures forall j :: 0 <= j < |Join(segs, sep)| ==> !IsLineTerminator(Join(segs, sep)[j])
  {
    if |segs| > 1 {
      JoinFree(segs[1..], sep);
      var r := Join(segs[1..], sep);
      assert Join(segs, sep) == segs[0] + sep + r;
      forall j | 0 <= j < |Join(segs, sep)| ensures !IsLineTerminator(Join(segs, sep)[j]) {
        if j < |segs[0]| {
          assert Join(segs, sep)[j] == segs[0][j];
        } else if j < |segs[0]| + |sep| {
          assert Join(segs, sep)[j] == sep[j - |segs[0]|];
        } else {
          assert Join(segs, sep)[j] == r[j - |segs[0]| - |sep|];
        }
      }
    }
  }

  /** `` ` /** ${comment} */` `` for a non-empty comment, nothing otherwise. */
  function CommentSuffix(comment: string): string {
    if comment != "" then " /** " + comment + " */" else ""
  }

  /** One declaration: `    --name: value;` and the comment. */
  function CssLine(t: Token, outputReferences: bool): string {
    "    " + VarName(t.name) + ": " + ResolvedValue(t, outputReferences) + ";" + CommentSuffix(t.comment)
  }

  /** A declaration is four spaces, `--name: value;`, and ` /** comment */` only when there is a comment. */
  lemma CssLineShape(t: Token, outputReferences: bool)
    ensures var decl := "    " + VarName(t.name) + ": " + ResolvedValue(t, outputReferences) + ";";
      && StartsWith(CssLine(t, outputReferences), decl)
      && (t.comment == "" ==> CssLine(t, outputReferences) == decl)
      && (t.comment != "" ==> CssLine(t, outputReferences)[|decl|..] == " /** " + t.comment + " */")
  {
  }

  function CssLines(tokens: seq<Token>, outputReferences: bool): (r: seq<string>)
    ensures |r| == |tokens| && forall i :: 0 <= i < |tokens| ==> r[i] == CssLine(tokens[i], outputReferences)
  {
    seq(|tokens|, i requires 0 <= i < |tokens| => CssLine(tokens[i], outputReferences))
  }

  /** The declarations of the inverse tokens, one per line. */
  function Variables(tokens: seq<Token>, outputReferences: bool): string {
    Join(CssLines(InverseTokens(tokens), outputReferences), "\n")
  }

  /** `inverseCSSFormat`: the header, then the declarations inside `:root` in a dark-scheme media query. */
  function InverseCss(header: string, tokens: seq<Token>, outputReferences: bool): string {
    header + "@media (prefers-color-scheme: dark) {\n  :root {\n" + Variables(tokens, outputReferences) + "\n  }\n}\n"
  }

  /** A token whose text has no newline gives a declaration without one. */
  predicate SingleLine(t: Token, outputReferences: bool) {
    '\n' !in CssLine(t, outputReferences)
  }

  /** Splitting the declarations at newlines gives back one declaration per inverse token, in order. */
  lemma VariablesLines(tokens: seq<Token>, outputReferences: bool)
    requires |InverseTokens(tokens)| >= 1
    requires forall t :: t in tokens ==> SingleLine(t, outputReferences)
    ensures Split(Variables(tokens, outputReferences), '\n') == CssLines(InverseTokens(tokens), outputReferences)
  {
    var lines := CssLines(InverseTokens(tokens), outputReferences);
    forall i | 0 <= i < |lines| ensures '\n' !in lines[i] {
      TokenFilterMembers(tokens, InverseTokens(tokens)[i]);
    }
    SplitJoin(lines, '\n');
  }

  /** The media query wraps the declarations: the output starts with the header and closes both blocks. */
  lemma InverseCssShape(header: string, tokens: seq<Token>, outputReferences: bool)
    ensures var css := InverseCss(header, tokens, outputReferences);
      var open := header + "@media (prefers-color-scheme: dark) {\n  :root {\n";
      && StartsWith(css, open)
      && EndsWith(css, "\n  }\n}\n")
      && css[|open|..|css| - 7] == Variables(tokens, outputReferences)
  {
  }
}
