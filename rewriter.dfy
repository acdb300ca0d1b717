/**
 * The rule engine: `replaceSource` folds the configured rule list over the
 * module path, each rule rewriting the output of the one before it.
 */
module Rewriter {
  import opened Results
  import opened ToRegExp

  /**
   * The regular-expression substitution `s.replace(pattern, replacement)`,
   * supplied by the caller: the engine only decides which pattern and which
   * working string it is applied to.
   */
  type Replacer = (string, Pattern, string) -> string

  /** A configured rule: a `[pattern, replacement]` pair or a function. */
  datatype Rule =
    | PatternRule(spec: PatternSpec, replacement: string)
    | FunctionRule(f: string -> string)

  /** The plugin options: `replace` may be missing (or falsy). */
  datatype Options = Options(replace: Option<seq<Rule>>)

  /** The plugin state handed to `replaceSource`: `opts` may be missing (or falsy). */
  datatype State = State(opts: Option<Options>)

  /** `(opts && opts.replace) || []`: the rules in configuration order. */
  function ConfiguredRules(state: State): (rules: seq<Rule>)
    ensures state.opts.None? ==> rules == []
    ensures state.opts.Some? && state.opts.value.replace.None? ==> rules == []
    ensures state.opts.Some? && state.opts.value.replace.Some? ==>
              rules == state.opts.value.replace.value
  {
    match state.opts
    case None => []
    case Some(opts) => match opts.replace
      case None => []
      case Some(rules) => rules
  }

  /** A pattern rule whose pattern string does not resolve. */
  predicate Invalid(rule: Rule) {
    rule.PatternRule? && Resolve(rule.spec).Err?
  }

  /**
   * One rule applied to the working string `w`: a function rule's result is
   * the new string; a pattern rule fails exactly when its pattern string does
   * not resolve, with the message naming that string.
   */
  function ApplyRule(rule: Rule, w: string, replace: Replacer): (r: Result<string>)
    ensures r.Err? <==> Invalid(rule)
    ensures r.Err? ==> rule.spec.Str? && r.message == InvalidPrefix + rule.spec.text
    ensures rule.FunctionRule? ==> r == Ok(rule.f(w))
  {
    match rule
    case PatternRule(spec, repl) =>
      (match Resolve(spec)
       case Ok(p) => Ok(replace(w, p, repl))
       case Err(m) => Err(m))
    case FunctionRule(f) => Ok(f(w))
  }

  /**
   * The rules folded over `src`, the last rule applied to what the others
   * made. No rules leave `src` alone; a failure is the error of one of the
   * rules whose pattern string does not resolve.
   */
  function Rewrite(src: string, rules: seq<Rule>, replace: Replacer): (r: Result<string>)
    ensures rules == [] ==> r == Ok(src)
    ensures r.Err? ==> exists k :: 0 <= k < |rules| && Invalid(rules[k]) &&
                                  r.message == InvalidPrefix + rules[k].spec.text
    decreases |rules|
  {
    if rules == [] then Ok(src)
    else
      var init := rules[..|rules| - 1];
      match Rewrite(src, init, replace)
      case Err(m) =>
        var k :| 0 <= k < |init| && Invalid(init[k]) && m == InvalidPrefix + init[k].spec.text;
        assert rules[k] == init[k];
        Err(m)
      case Ok(w) => ApplyRule(rules[|rules| - 1], w, replace)
  }

  /** Continue a rewrite that has produced `r` with further rules. */
  function Then(r: Result<string>, rules: seq<Rule>, replace: Replacer): Result<string>
  {
    match r
    case Err(m) => Err(m)
    case Ok(w) => Rewrite(w, rules, replace)
  }

  /**
   * `replaceSource(src, state)`: a loop over the configured rules that
   * reassigns the working string, stopping at the first pattern that does
   * not resolve.
   */
  method ReplaceSource(src: string, state: State, replace: Replacer) returns (r: Result<string>)
    ensures r == Rewrite(src, ConfiguredRules(state), replace)
    ensures ConfiguredRules(state) == [] ==> r == Ok(src)
  {
    var rules := ConfiguredRules(state);
    var working := src;
    for i := 0 to |rules|
      invariant Rewrite(src, rules[..i], replace) == Ok(working)
    {
      assert rules[..i + 1][..i] == rules[..i];
      var step := ApplyRule(rules[i], working, replace);
      if step.Err? {
        RewriteAppend(src, rules[..i + 1], rules[i + 1..], replace);
        assert rules[..i + 1] + rules[i + 1..] == rules;
        return Err(step.message);
      }
      working := step.value;
    }
    assert rules[..|rules|] == rules;
    return Ok(working);
  }

  /** Rewriting with `a + b` is rewriting with `a`, then with `b` on its output. */
  lemma {:induction false} RewriteAppend(src: string, a: seq<Rule>, b: seq<Rule>, replace: Replacer)
    ensures Rewrite(src, a + b, replace) == Then(Rewrite(src, a, replace), b, replace)
    decreases |b|
  {
    if b == [] {
      assert a + b == a;
    } else {
      var b' := b[..|b| - 1];
      assert (a + b)[..|a + b| - 1] == a + b';
      assert (a + b)[|a + b| - 1] == b[|b| - 1];
      RewriteAppend(src, a, b', replace);
    }
  }

  /** The first rule sees `src`, and the remaining rules see what it produced. */
  lemma RewriteCons(src: string, rule: Rule, rest: seq<Rule>, replace: Replacer)
    ensures Rewrite(src, [rule] + rest, replace) == Then(ApplyRule(rule, src, replace), rest, replace)
  {
    RewriteAppend(src, [rule], rest, replace);
    assert [rule][..0] == [];
  }

  /** A function rule is called with the current working string, and its result is carried on. */
  lemma RewriteFunctionRule(src: string, f: string -> string, rest: seq<Rule>, replace: Replacer)
    ensures Rewrite(src, [FunctionRule(f)] + rest, replace) == Rewrite(f(src), rest, replace)
  {
    RewriteCons(src, FunctionRule(f), rest, replace);
  }

  /** A pattern rule substitutes with exactly the resolved pattern, then the rest follow. */
  lemma RewritePatternRule(src: string, spec: PatternSpec, repl: string, rest: seq<Rule>, replace: Replacer)
    requires Resolve(spec).Ok?
    ensures Rewrite(src, [PatternRule(spec, repl)] + rest, replace)
            == Rewrite(replace(src, Resolve(spec).value, repl), rest, replace)
  {
    RewriteCons(src, PatternRule(spec, repl), rest, replace);
  }

  /** The rewrite produces an output exactly when every pattern rule resolves. */
  lemma {:induction false} RewriteSucceedsIffAllValid(src: string, rules: seq<Rule>, replace: Replacer)
    ensures Rewrite(src, rules, replace).Ok? <==> forall k :: 0 <= k < |rules| ==> !Invalid(rules[k])
    decreases |rules|
  {
    if rules != [] {
      var init := rules[..|rules| - 1];
      RewriteSucceedsIffAllValid(src, init, replace);
      assert forall k :: 0 <= k < |init| ==> init[k] == rules[k];
      if Rewrite(src, init, replace).Err? {
        var k :| 0 <= k < |init| && Invalid(init[k]);
        assert Invalid(rules[k]);
      }
    }
  }

  /**
   * A rewrite whose first unresolvable pattern rule is rule `k` fails with
   * that rule's error, whatever the rules after it are.
   */
  lemma RewriteFailsAtFirstInvalid(src: string, rules: seq<Rule>, replace: Replacer, k: nat)
    requires k < |rules| && Invalid(rules[k])
    requires forall j :: 0 <= j < k ==> !Invalid(rules[j])
    ensures Rewrite(src, rules, replace) == Err(Resolve(rules[k].spec).message)
    ensures rules[k].spec.Str? &&
            Rewrite(src, rules, replace).message == InvalidPrefix + rules[k].spec.text
  {
  }

  /** Rules that are all functions compose: the first function is applied first. */
  lemma {:induction false} RewriteFunctions(src: string, fs: seq<string -> string>, replace: Replacer)
    ensures Rewrite(src, seq(|fs|, i requires 0 <= i < |fs| => FunctionRule(fs[i])), replace)
            == Ok(Compose(src, fs))
    decreases |fs|
  {
    if fs != [] {
      var rules := seq(|fs|, i requires 0 <= i < |fs| => FunctionRule(fs[i]));
      var rest := fs[1..];
      assert rules == [FunctionRule(fs[0])] + seq(|rest|, i requires 0 <= i < |rest| => FunctionRule(rest[i]));
      RewriteFunctionRule(src, fs[0], seq(|rest|, i requires 0 <= i < |rest| => FunctionRule(rest[i])), replace);
      RewriteFunctions(fs[0](src), rest, replace);
    }
  }

  /** `fs` applied to `s` in list order, the first function first. */
  function Compose(s: string, fs: seq<string -> string>): string
    decreases |fs|
  {
    if fs == [] then s else Compose(fs[0](s), fs[1..])
  }
}
