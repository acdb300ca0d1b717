# module-replace rule engine, in Dafny

This project models the rule engine of `babel-plugin-module-replace`. The
engine rewrites a module path (the target of an `import`, an `export … from`
or a dynamic `import()`) by applying a configured list of rules in order:

- **Pattern resolution** (`toRegExp`, module `ToRegExp`). A pattern that is
  already a compiled regular expression is used as it is. A pattern given as
  a string must have the shape `/<body>/<flags>`. The body may be empty and
  may contain `/`. Because the body match is greedy, it ends at the last `/`
  of the string. The flags are lower-case letters. Any other string throws an
  `Error` whose message is `Invalid regular expression: ` followed by the
  string. `SplitDelimited` is the grammar and the split. It is proved against
  the independent grammar `Delimited` (some body and flags spell the string)
  in both directions, and against an elementary description (a leading `/`,
  another `/` after it, only flag letters after that one). `Delimit` and
  `SplitDelimited` are shown to be inverse.
- **The rule fold** (`replaceSource`, module `Rewriter`). A rule is either a
  `[pattern, replacement]` pair or a function. Each rule rewrites the output
  of the rule before it. `ReplaceSource` is that loop, proved equal to the
  specification fold `Rewrite`. The lemmas about `Rewrite` state:
  - rule lists compose;
  - the first rule sees the original path and each later rule sees the
    current one;
  - the rewrite fails exactly when some pattern string does not resolve;
  - it then fails with the error of the earliest such rule, whatever follows.
- **Substitution.** The engine passes each resolved pattern to JavaScript's
  `String.prototype.replace`. Here that call is a parameter of type
  `Replacer`, so every statement about the fold holds for any substitution
  function. Module `LiteralReplace` gives a concrete stand-in. It matches the
  body as a literal substring: only the leftmost occurrence without the `g`
  flag, every occurrence from left to right with it. An empty body matches at
  every position. Module `Fixtures` states each case of the repository's test
  table as a lemma. Cases that need only literal matching are computed with
  the stand-in. Cases that need anchors, groups or the `i` flag are stated for
  every substitution function: the rewrite hands exactly the configured
  pattern and replacement to the substitution, in rule order.

A thrown error is modelled as the `Err` case of `Result`. The engine never
returns a partial output. The source throws a plain `Error`. It has no
dedicated error type.

## Model

| member | source | states |
|---|---|---|
| `ToRegExp.InvalidMessage` | src/index.mjs:11 | the error message is the fixed prefix `Invalid regular expression: ` followed by the input verbatim |
| `ToRegExp.LastSlash` | src/index.mjs:9 | finds the index of a `/` with no `/` after it, or finds nothing exactly when the string has no `/` |
| `ToRegExp.SplitDelimited` | src/index.mjs:9-12 | on acceptance the flags are lower-case letters and `/` + body + `/` + flags is the input; on rejection the message is the prefix and the input |
| `ToRegExp.Resolve` | src/index.mjs:7-16 | a compiled pattern is returned unchanged; a string yields the pattern made of exactly its body and flags, or the invalid-pattern error naming it |
| `ToRegExp.LastSlashOfDelimit` | src/index.mjs:9 | flags contain no `/`, so in `/body/flags` the closing delimiter is the last `/` |
| `ToRegExp.SplitDelimit` | src/index.mjs:9-13 | splitting `/body/flags` gives back body and flags, for any body (including ones with `/`) and any lower-case flags |
| `ToRegExp.DelimitInjective` | src/index.mjs:9 | a delimited string has only one split into body and flags |
| `ToRegExp.SplitAcceptsGrammar` | src/index.mjs:9-12 | a string is accepted if and only if it matches the delimited grammar |
| `ToRegExp.SplitAcceptsExactly` | src/index.mjs:9-12 | a string is accepted if and only if it is at least two characters long, starts with `/`, and has a `/` after index 0 followed only by flag letters |
| `ToRegExp.ResolveDelimit` | src/index.mjs:13 | the compiled pattern of `/body/flags` has exactly that body and those flags, with no flag added |
| `LiteralReplace.IndexFrom` | src/index.mjs:30 | the index found from a start position is an occurrence with none between the start and it; nothing is found only when no occurrence starts at or after the start |
| `LiteralReplace.IndexOf` | src/index.mjs:30 | the index found is an occurrence with none before it; nothing is found only when there is no occurrence |
| `LiteralReplace.ReplaceFirst` | src/index.mjs:30 | with no occurrence the string is unchanged; otherwise the text before the leftmost occurrence and after it is kept, the replacement stands at its place, and the length changes by the difference of the two |
| `LiteralReplace.ReplaceAll` | src/index.mjs:30 | an empty body grows the string by one copy of the replacement per position; a non-empty body leaves a string without an occurrence unchanged, and otherwise keeps the text before the leftmost occurrence and puts the replacement there |
| `LiteralReplace.ReplaceAllEmpty` | src/index.mjs:30 | the result is as long as the string plus length + 1 copies of the replacement |
| `LiteralReplace.ReplaceEach` | src/index.mjs:30 | a string without an occurrence of the body is unchanged; otherwise the text before the leftmost occurrence is kept and the replacement stands there |
| `LiteralReplace.Replace` | src/index.mjs:30 | for a non-empty body, a string without an occurrence is unchanged, with or without `g` |
| `LiteralReplace.ReplaceSelf` | src/index.mjs:30 | replacing a non-empty body by itself leaves any string unchanged, with or without `g` |
| `LiteralReplace.IndexOfLeftmost` | src/index.mjs:30 | the leftmost occurrence is the one the search finds |
| `LiteralReplace.IndexOfAbsent` | src/index.mjs:30 | with no occurrence the search finds nothing |
| `LiteralReplace.ReplaceAbsent` | src/index.mjs:30 | with no occurrence of a non-empty body, replacement leaves the string unchanged, with or without `g` |
| `LiteralReplace.ReplaceFirstSplices` | src/index.mjs:30 | without `g`, the leftmost occurrence is replaced and everything before and after it is kept |
| `LiteralReplace.ReplaceAllSplices` | src/index.mjs:30 | with `g` and a non-empty body, the leftmost occurrence is replaced and the scan continues after the replaced text |
| `LiteralReplace.ReplaceEachSelf` | src/index.mjs:30 | replacing every occurrence of a non-empty body by itself changes nothing |
| `LiteralReplace.ReplaceAllEmptyPositions` | src/index.mjs:30 | a global empty-pattern replacement puts a copy of the replacement at each of the length + 1 positions and keeps the characters of the string, in order, between the copies |
| `Rewriter.ConfiguredRules` | src/index.mjs:26-27 | missing options or a missing `replace` gives the empty rule list; otherwise the configured list, in its order |
| `Rewriter.ApplyRule` | src/index.mjs:29-33 | one rule fails exactly when it is a pattern rule whose pattern string does not resolve, with the message naming that string; a function rule's result is the function applied to the current string |
| `Rewriter.Rewrite` | src/index.mjs:28-35 | with no rules the path is returned unchanged; a failure is the invalid-pattern error of one of the rules whose pattern string does not resolve |
| `Rewriter.ReplaceSource` | src/index.mjs:25-36 | the loop returns the left fold of the configured rules over the path; with no rules it returns the path unchanged |
| `Rewriter.RewriteAppend` | src/index.mjs:28-34 | rewriting with `a + b` is rewriting with `a`, then with `b` on its output, and a failure in `a` is final |
| `Rewriter.RewriteCons` | src/index.mjs:28-34 | the first rule is applied to the original path and the remaining rules to its output |
| `Rewriter.RewriteFunctionRule` | src/index.mjs:31-32 | a function rule is called with the current working string, and its return value is what the next rules see |
| `Rewriter.RewritePatternRule` | src/index.mjs:29-30 | a pattern rule substitutes with exactly its resolved pattern and replacement before the next rules run |
| `Rewriter.RewriteSucceedsIffAllValid` | src/index.mjs:28-34 | the rewrite produces an output if and only if every pattern rule's pattern resolves |
| `Rewriter.RewriteFailsAtFirstInvalid` | src/index.mjs:30 | if rule `k` is the first whose pattern does not resolve, the rewrite fails with that rule's message (prefix and pattern string), whatever the later rules are |
| `Rewriter.RewriteFunctions` | src/index.mjs:31-33 | a list of function rules gives the functions composed in list order, the first function applied to the path first |
| `Fixtures.LowerAscii` | src/index.spec.mjs:53 | the result has the same length and no upper-case ASCII letter; each upper-case letter becomes the lower-case letter at the same place in the alphabet, and every other character is kept |
| `Fixtures.LowerAsciiIdempotent` | src/index.spec.mjs:53 | lower-casing twice is lower-casing once |
| `Fixtures.DelimitedEdgeCases` | src/index.mjs:9 | `/` is rejected; `//` gives an empty body and empty flags; `/a/b/gi` splits as `a/b` and `gi`; `/foo/g/` gives body `foo/g`; `/foo/G` and `foo/g/` are rejected |
| `Fixtures.SingleRule` | src/index.mjs:28-34 | a list of one rule is that rule applied to the path |
| `Fixtures.NoChange` | src/index.spec.mjs:8-14 | an empty rule list leaves `nochange` unchanged |
| `Fixtures.ScopeRename` | src/index.spec.mjs:15-21 | `/@foo/` to `@bar` turns `@foo/core` into `@bar/core` |
| `Fixtures.AnchoredPattern` | src/index.spec.mjs:22-28 | the pattern string `/^foo$/` reaches the substitution with body `^foo$`, no flags and the replacement `bar` |
| `Fixtures.FirstMatchOnly` | src/index.spec.mjs:29-35 | `/foo/` without `g` turns `foo-foo` into `bar-foo` |
| `Fixtures.GlobalTail` | src/index.spec.mjs:36-42 | global replacement of `foo` by `bar` turns `-foo` into `-bar` |
| `Fixtures.GlobalWhole` | src/index.spec.mjs:36-42 | global replacement of `foo` by `bar` turns `foo-foo` into `bar-bar` |
| `Fixtures.GlobalMatch` | src/index.spec.mjs:36-42 | `/foo/g` turns `foo-foo` into `bar-bar` |
| `Fixtures.OrderSteps` | src/index.spec.mjs:57-76 | the single steps of the two rule orders on `foo` |
| `Fixtures.OrderMatters` | src/index.spec.mjs:57-76 | `foo` to `bar` then `bar` to `baz` gives `baz` from `foo`, and the reverse order gives `bar` |
| `Fixtures.AnchoredOrder` | src/index.spec.mjs:57-76 | for every substitution function, `^foo$` to `bar` then `^bar` to `baz` substitutes the second pattern on the result of the first, and the reverse order applies them the other way round |
| `Fixtures.DropOSteps` | src/index.mjs:30 | removing the first `o` turns `foo` into `fo` and `fo` into `f` |
| `Fixtures.DuplicatesApplyTwice` | src/index.mjs:28-34 | a rule listed twice is applied twice (`foo` loses both `o`): rules are not deduplicated |
| `Fixtures.FunctionRuleLowers` | src/index.spec.mjs:50-56 | a lower-casing function rule turns `ABCDEFGH` into `abcdefgh` |
| `Fixtures.BackreferencePattern` | src/index.spec.mjs:77-90 | the pattern string `/^(\.\.?\/.+)\.mjs/` reaches the substitution with that whole body and no flags, together with the template `$1.js` |
| `Fixtures.CompiledPassThrough` | src/index.spec.mjs:43-49 | a compiled pattern `foo` with flags `gi` reaches the substitution unchanged |
| `Fixtures.CompiledTs` | src/index.spec.mjs:91-97 | the compiled `.ts` pattern reaches the substitution unchanged with the template `$1.js` |
| `Fixtures.CompiledModuleTs` | src/index.spec.mjs:98-104 | the compiled pattern for `.mts`, `.cts`, `.mtsx` and `.ctsx` reaches the substitution unchanged with the template `$1.js` |
| `Fixtures.CompiledCaseInsensitive` | src/index.spec.mjs:105-111 | the compiled case-insensitive pattern reaches the substitution with its `i` flag kept |
| `Fixtures.InvalidPatternFails` | src/index.spec.mjs:112-119 | the rule `not-a-regex` makes the rewrite fail with `Invalid regular expression: not-a-regex` and no output |

## Left out

- The Babel plugin entry point and its four visitor callbacks (src/index.mjs:43-98) are not modelled. They are host-framework glue that find path literals in the syntax tree and write the result back.
- `ToRegExp.Resolve`: does not model the `SyntaxError` that `new RegExp(body, flags)` throws for unknown or repeated flags or a malformed body (src/index.mjs:13). The pattern is built from the body and the flags without further checks. That validation belongs to the JavaScript regular-expression engine.
- `Rewriter.ReplaceSource`: the `src.replace(...)` call (src/index.mjs:30) is a caller-supplied `Replacer`. JavaScript's matching and its `$1`, `$&` and `$$` templates are not modelled.
- `LiteralReplace.Replace`: a literal stand-in for the substitution. It ignores regular-expression syntax (anchors, groups, classes) and every flag but `g` (`i`, `m`, `s`, `u`, `y`). It also ignores `$` templates in the replacement. So the fixtures with `^`, `$`, groups or `i` (src/index.spec.mjs:22-28, 43-49, 57-76, 77-111) are stated for any substitution function. `OrderMatters` additionally computes the two rule orders of src/index.spec.mjs:57-76 with unanchored literals that give the same outcome.
- `LiteralReplace.ReplaceAllEmpty`: steps past an empty match by one Dafny character. JavaScript steps by one UTF-16 code unit, or by one code point with the `u` flag.
- `Rewriter.ReplaceSource`: does not model the `lastIndex` state of a compiled pattern object shared across calls (src/index.mjs:15, 30). With the `y` flag and without `g`, `replace` reads and updates that state, so the same compiled rule can rewrite one path and leave the next unchanged. The model treats each substitution as a function of its inputs only. A pattern given as a string builds a fresh object on each call, so it carries no such state.
- Function rules are total Dafny functions. A function rule that throws, a rule that is neither an array nor a function (a `TypeError` in JavaScript), and a replacement argument that is a function or not a string are not modelled.
- `Fixtures.LowerAscii`: lower-cases ASCII letters only, and stands in for `String.prototype.toLowerCase`, which follows Unicode case mapping.
- Falsy non-array values of `opts` or `opts.replace` (`false`, `0`, `''`) are all modelled as absent (`None`), which is how `(opts && opts.replace) || []` treats them.
