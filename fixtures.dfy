/**
 * The rewrites of the repository's test table, stated over the rule engine.
 * Where a fixture needs the regular-expression engine (anchors, groups, the
 * `i` flag) it is stated for every substitution function; where a literal
 * match suffices it is computed with the literal stand-in.
 */
module Fixtures {
  import opened Results
  import opened ToRegExp
  import LiteralReplace
  import opened Rewriter

  /** An upper-case ASCII letter. */
  predicate IsUpper(c: char) {
    'A' <= c <= 'Z'
  }

  /**
   * ASCII lower-casing, standing in for `s => s.toLowerCase()`: no upper-case
   * letter is left, every upper-case letter becomes the lower-case letter at
   * the same place in the alphabet, and every other character is kept.
   */
  function LowerAscii(s: string): (r: string)
    ensures |r| == |s|
    ensures forall i :: 0 <= i < |r| ==> !IsUpper(r[i])
    ensures forall i :: 0 <= i < |s| && !IsUpper(s[i]) ==> r[i] == s[i]
    ensures forall i :: 0 <= i < |s| && IsUpper(s[i]) ==>
              'a' <= r[i] <= 'z' && r[i] as int - 'a' as int == s[i] as int - 'A' as int
  {
    seq(|s|, i requires 0 <= i < |s| => if IsUpper(s[i]) then (s[i] as int + 32) as char else s[i])
  }

  /** Lower-casing twice is lower-casing once. */
  lemma LowerAsciiIdempotent(s: string)
    ensures LowerAscii(LowerAscii(s)) == LowerAscii(s)
  {
  }

  /** Pattern strings: the lone `/` is rejected, `//` is the empty pattern, inner `/` belong to the body. */
  lemma DelimitedEdgeCases()
    ensures SplitDelimited("/").Err?
    ensures SplitDelimited("//") == Ok(("", ""))
    ensures SplitDelimited("/a/b/gi") == Ok(("a/b", "gi"))
    ensures SplitDelimited("/foo/g/") == Ok(("foo/g", ""))
    ensures SplitDelimited("/foo/G").Err?
    ensures SplitDelimited("foo/g/").Err?
  {
    assert "//" == Delimit("", "");
    SplitDelimit("", "");
    assert "/a/b/gi" == Delimit("a/b", "gi");
    SplitDelimit("a/b", "gi");
    assert "/foo/g/" == Delimit("foo/g", "");
    SplitDelimit("foo/g", "");
    assert LastSlash("/foo/G") == Some(4) by {
      assert "/foo/G"[..5] == "/foo/";
    }
    assert "/foo/G"[5..] == "G";
  }

  /** A one-rule list is that rule applied to the path. */
  lemma SingleRule(src: string, rule: Rule, replace: Replacer)
    ensures Rewrite(src, [rule], replace) == ApplyRule(rule, src, replace)
  {
  }

  /** An empty rule list leaves the path alone. */
  lemma NoChange(replace: Replacer)
    ensures Rewrite("nochange", [], replace) == Ok("nochange")
  {
  }

  /** `'/@foo/' -> '@bar'` on `@foo/core` gives `@bar/core`. */
  lemma ScopeRename()
    ensures Rewrite("@foo/core", [PatternRule(Str("/@foo/"), "@bar")], LiteralReplace.Replace)
            == Ok("@bar/core")
  {
    assert "/@foo/" == Delimit("@foo", "");
    ResolveDelimit("@foo", "");
    LiteralReplace.IndexOfLeftmost("@foo/core", "@foo", 0);
    assert "@foo/core"[4..] == "/core";
    assert LiteralReplace.Replace("@foo/core", Pattern("@foo", ""), "@bar") == "@bar/core";
    SingleRule("@foo/core", PatternRule(Str("/@foo/"), "@bar"), LiteralReplace.Replace);
  }

  /** Without `g` only the first `foo` of `foo-foo` is replaced. */
  lemma FirstMatchOnly()
    ensures Rewrite("foo-foo", [PatternRule(Str("/foo/"), "bar")], LiteralReplace.Replace)
            == Ok("bar-foo")
  {
    assert "/foo/" == Delimit("foo", "");
    ResolveDelimit("foo", "");
    LiteralReplace.IndexOfLeftmost("foo-foo", "foo", 0);
    assert "foo-foo"[3..] == "-foo";
    assert LiteralReplace.Replace("foo-foo", Pattern("foo", ""), "bar") == "bar-foo";
    SingleRule("foo-foo", PatternRule(Str("/foo/"), "bar"), LiteralReplace.Replace);
  }

  /** The global stand-in on `-foo`: the one `foo` after the dash is replaced. */
  lemma GlobalTail()
    ensures LiteralReplace.ReplaceAll("-foo", "foo", "bar") == "-bar"
  {
    LiteralReplace.IndexOfAbsent("", "foo");
    assert !LiteralReplace.OccursAt("-foo", "foo", 0) by {
      assert "-foo"[0] != "foo"[0];
    }
    LiteralReplace.ReplaceAllSplices("-foo", "foo", "bar", 1);
    assert "-foo"[4..] == "";
    assert "-foo"[..1] == "-";
  }

  /** The global stand-in on `foo-foo`: both occurrences are replaced. */
  lemma GlobalWhole()
    ensures LiteralReplace.ReplaceAll("foo-foo", "foo", "bar") == "bar-bar"
  {
    GlobalTail();
    LiteralReplace.ReplaceAllSplices("foo-foo", "foo", "bar", 0);
    assert "foo-foo"[3..] == "-foo";
    assert "foo-foo"[..0] == "";
  }

  /** With `g` both occurrences of `foo` in `foo-foo` are replaced. */
  lemma GlobalMatch()
    ensures Rewrite("foo-foo", [PatternRule(Str("/foo/g"), "bar")], LiteralReplace.Replace)
            == Ok("bar-bar")
  {
    assert "/foo/g" == Delimit("foo", "g");
    ResolveDelimit("foo", "g");
    GlobalWhole();
    assert LiteralReplace.IsGlobal(Pattern("foo", "g"));
    SingleRule("foo-foo", PatternRule(Str("/foo/g"), "bar"), LiteralReplace.Replace);
  }

  /** Replaces `foo` by `bar`. */
  const ToBar: Rule := PatternRule(Str("/foo/"), "bar")

  /** Replaces `bar` by `baz`. */
  const ToBaz: Rule := PatternRule(Str("/bar/"), "baz")

  /** The single steps of the two orders. */
  lemma OrderSteps()
    ensures ApplyRule(ToBar, "foo", LiteralReplace.Replace) == Ok("bar")
    ensures ApplyRule(ToBaz, "bar", LiteralReplace.Replace) == Ok("baz")
    ensures ApplyRule(ToBaz, "foo", LiteralReplace.Replace) == Ok("foo")
  {
    assert "/foo/" == Delimit("foo", "");
    ResolveDelimit("foo", "");
    assert "/bar/" == Delimit("bar", "");
    ResolveDelimit("bar", "");
    LiteralReplace.IndexOfLeftmost("foo", "foo", 0);
    assert "foo"[..0] + "bar" + "foo"[3..] == "bar";
    LiteralReplace.IndexOfLeftmost("bar", "bar", 0);
    assert "bar"[..0] + "baz" + "bar"[3..] == "baz";
    assert !LiteralReplace.OccursAt("foo", "bar", 0) by {
      assert "foo"[0] != "bar"[0];
    }
    LiteralReplace.IndexOfAbsent("foo", "bar");
  }

  /** `foo -> bar` then `bar -> baz` turns `foo` into `baz`; the other order gives `bar`. */
  lemma OrderMatters()
    ensures Rewrite("foo", [ToBar, ToBaz], LiteralReplace.Replace) == Ok("baz")
    ensures Rewrite("foo", [ToBaz, ToBar], LiteralReplace.Replace) == Ok("bar")
  {
    OrderSteps();
    RewriteCons("foo", ToBar, [ToBaz], LiteralReplace.Replace);
    SingleRule("bar", ToBaz, LiteralReplace.Replace);
    RewriteCons("foo", ToBaz, [ToBar], LiteralReplace.Replace);
    SingleRule("foo", ToBar, LiteralReplace.Replace);
    assert [ToBar] + [ToBaz] == [ToBar, ToBaz];
    assert [ToBaz] + [ToBar] == [ToBaz, ToBar];
  }

  /** Drops the first `o`. */
  const DropO: Rule := PatternRule(Str("/o/"), "")

  /** The two applications of `DropO` to `foo`. */
  lemma DropOSteps()
    ensures ApplyRule(DropO, "foo", LiteralReplace.Replace) == Ok("fo")
    ensures ApplyRule(DropO, "fo", LiteralReplace.Replace) == Ok("f")
  {
    assert "/o/" == Delimit("o", "");
    ResolveDelimit("o", "");
    assert !LiteralReplace.OccursAt("foo", "o", 0) by {
      assert "foo"[0] != "o"[0];
    }
    LiteralReplace.IndexOfLeftmost("foo", "o", 1);
    assert "foo"[..1] + "" + "foo"[2..] == "fo";
    assert !LiteralReplace.OccursAt("fo", "o", 0) by {
      assert "fo"[0] != "o"[0];
    }
    LiteralReplace.IndexOfLeftmost("fo", "o", 1);
    assert "fo"[..1] + "" + "fo"[2..] == "f";
  }

  /** A rule listed twice is applied twice: rules are not deduplicated. */
  lemma DuplicatesApplyTwice()
    ensures Rewrite("foo", [DropO, DropO], LiteralReplace.Replace) == Ok("f")
  {
    DropOSteps();
    RewriteCons("foo", DropO, [DropO], LiteralReplace.Replace);
    SingleRule("fo", DropO, LiteralReplace.Replace);
    assert [DropO] + [DropO] == [DropO, DropO];
  }

  /** A function rule lower-cases `ABCDEFGH`. */
  lemma FunctionRuleLowers(replace: Replacer)
    ensures Rewrite("ABCDEFGH", [FunctionRule(LowerAscii)], replace) == Ok("abcdefgh")
  {
    assert LowerAscii("ABCDEFGH") == "abcdefgh";
  }

  /** A pattern string whose body holds escaped `/` reaches the substitution whole, with no flags. */
  lemma BackreferencePattern(src: string, replace: Replacer)
    ensures Rewrite(src, [PatternRule(Str("/^(\\.\\.?\\/.+)\\.mjs/"), "$1.js")], replace)
            == Ok(replace(src, Pattern("^(\\.\\.?\\/.+)\\.mjs", ""), "$1.js"))
  {
    assert "/^(\\.\\.?\\/.+)\\.mjs/" == Delimit("^(\\.\\.?\\/.+)\\.mjs", "");
    ResolveDelimit("^(\\.\\.?\\/.+)\\.mjs", "");
  }

  /** `/^foo$/` on its own reaches the substitution with its anchors and no flags. */
  lemma AnchoredPattern(src: string, replace: Replacer)
    ensures Rewrite(src, [PatternRule(Str("/^foo$/"), "bar")], replace)
            == Ok(replace(src, Pattern("^foo$", ""), "bar"))
  {
    assert "/^foo$/" == Delimit("^foo$", "");
    ResolveDelimit("^foo$", "");
  }

  /**
   * For every substitution function, `^foo$ -> bar` then `^bar -> baz`
   * substitutes on the output of the first rule; the reverse order applies
   * the same two substitutions the other way round.
   */
  lemma AnchoredOrder(replace: Replacer)
    ensures Rewrite("foo", [PatternRule(Str("/^foo$/"), "bar"), PatternRule(Str("/^bar/"), "baz")], replace)
            == Ok(replace(replace("foo", Pattern("^foo$", ""), "bar"), Pattern("^bar", ""), "baz"))
    ensures Rewrite("foo", [PatternRule(Str("/^bar/"), "baz"), PatternRule(Str("/^foo$/"), "bar")], replace)
            == Ok(replace(replace("foo", Pattern("^bar", ""), "baz"), Pattern("^foo$", ""), "bar"))
  {
    var foo := PatternRule(Str("/^foo$/"), "bar");
    var bar := PatternRule(Str("/^bar/"), "baz");
    assert "/^foo$/" == Delimit("^foo$", "");
    ResolveDelimit("^foo$", "");
    assert "/^bar/" == Delimit("^bar", "");
    ResolveDelimit("^bar", "");
    assert [foo, bar] == [foo] + [bar] && [bar, foo] == [bar] + [foo];
    RewritePatternRule("foo", Str("/^foo$/"), "bar", [bar], replace);
    SingleRule(replace("foo", Pattern("^foo$", ""), "bar"), bar, replace);
    RewritePatternRule("foo", Str("/^bar/"), "baz", [foo], replace);
    SingleRule(replace("foo", Pattern("^bar", ""), "baz"), foo, replace);
  }

  /** The compiled `.ts` pattern reaches the substitution unchanged. */
  lemma CompiledTs(src: string, replace: Replacer)
    ensures Rewrite(src, [PatternRule(Compiled(Pattern("^(\\.\\.?\\/.+)\\.ts$", "")), "$1.js")], replace)
            == Ok(replace(src, Pattern("^(\\.\\.?\\/.+)\\.ts$", ""), "$1.js"))
  {
  }

  /** The compiled `.mts`/`.cts`/`.mtsx`/`.ctsx` pattern reaches the substitution unchanged. */
  lemma CompiledModuleTs(src: string, replace: Replacer)
    ensures Rewrite(src, [PatternRule(Compiled(Pattern("^(\\.\\.?\\/.+)\\.(m|c)tsx?$", "")), "$1.js")], replace)
            == Ok(replace(src, Pattern("^(\\.\\.?\\/.+)\\.(m|c)tsx?$", ""), "$1.js"))
  {
  }

  /** The compiled case-insensitive pattern keeps its `i` flag on the way to the substitution. */
  lemma CompiledCaseInsensitive(src: string, replace: Replacer)
    ensures Rewrite(src, [PatternRule(Compiled(Pattern("^(\\.\\.?\\/.+)\\.(m|c)?tsx?$", "i")), "$1.js")], replace)
            == Ok(replace(src, Pattern("^(\\.\\.?\\/.+)\\.(m|c)?tsx?$", "i"), "$1.js"))
  {
  }

  /** A compiled pattern is used as it is, without passing the string grammar. */
  lemma CompiledPassThrough(src: string, replace: Replacer)
    ensures Rewrite(src, [PatternRule(Compiled(Pattern("foo", "gi")), "bar")], replace)
            == Ok(replace(src, Pattern("foo", "gi"), "bar"))
  {
  }

  /** `not-a-regex` aborts the rewrite with the message naming it. */
  lemma InvalidPatternFails(src: string, replace: Replacer)
    ensures Rewrite(src, [PatternRule(Str("not-a-regex"), "replaced")], replace)
            == Err("Invalid regular expression: not-a-regex")
  {
  }
}
