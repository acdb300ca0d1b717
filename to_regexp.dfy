/**
 * Resolution of a rule's pattern specification: a pattern object is used as
 * it is, a string must have the delimited shape `/<body>/<flags>`.
 */
module ToRegExp {
  import opened Results

  /** A compiled regular expression, known by its source text and its flags. */
  datatype Pattern = Pattern(body: string, flags: string)

  /** A pattern as configured: already compiled, or a delimited string. */
  datatype PatternSpec = Compiled(pattern: Pattern) | Str(text: string)

  const InvalidPrefix: string := "Invalid regular expression: "

  /** The message of the error thrown for a string that is not delimited. */
  function InvalidMessage(s: string): (m: string)
    ensures |m| == |InvalidPrefix| + |s|
    ensures m[..|InvalidPrefix|] == InvalidPrefix && m[|InvalidPrefix|..] == s
  {
    InvalidPrefix + s
  }

  /** A flag letter is a lower-case ASCII letter (`[a-z]`). */
  predicate IsFlagChar(c: char) {
    'a' <= c <= 'z'
  }

  /** The flags part of the grammar: `[a-z]*`. */
  predicate IsFlags(f: string) {
    forall i :: 0 <= i < |f| ==> IsFlagChar(f[i])
  }

  /** The delimited string whose body and flags are the given ones. */
  function Delimit(body: string, flags: string): (s: string)
    ensures |s| == |body| + |flags| + 2
  {
    "/" + body + "/" + flags
  }

  /** The grammar `^\/([\s\S]*)\/([a-z]*)$`: some body and some flags spell `s`. */
  ghost predicate Delimited(s: string) {
    exists body: string, flags: string :: IsFlags(flags) && s == Delimit(body, flags)
  }

  /** The index of the last `/` of `s`, if there is one. */
  function LastSlash(s: string): (r: Option<nat>)
    ensures r.Some? ==> r.value < |s| && s[r.value] == '/'
    ensures r.Some? ==> forall j :: r.value < j < |s| ==> s[j] != '/'
    ensures r.None? ==> forall j :: 0 <= j < |s| ==> s[j] != '/'
  {
    if s == [] then None
    else if s[|s| - 1] == '/' then Some(|s| - 1)
    else LastSlash(s[..|s| - 1])
  }

  /**
   * The match of the delimited grammar: the greedy `[\s\S]*` ends at the last
   * `/`, which must not be the opening one, and what follows it must be flags.
   * A string that does not match yields the error message with `s` verbatim.
   */
  function SplitDelimited(s: string): (r: Result<(string, string)>)
    ensures r.Ok? ==> IsFlags(r.value.1) && s == Delimit(r.value.0, r.value.1)
    ensures r.Err? ==> r.message == InvalidPrefix + s
  {
    match LastSlash(s)
    case Some(j) =>
      if 1 <= j && s[0] == '/' && IsFlags(s[j + 1..]) then
        assert s == Delimit(s[1..j], s[j + 1..]);
        Ok((s[1..j], s[j + 1..]))
      else
        Err(InvalidMessage(s))
    case None => Err(InvalidMessage(s))
  }

  /**
   * `toRegExp`: a compiled pattern passes through untouched; a string is split
   * into body and flags, and the pattern is built from exactly those two parts.
   */
  function Resolve(spec: PatternSpec): (r: Result<Pattern>)
    ensures spec.Compiled? ==> r == Ok(spec.pattern)
    ensures spec.Str? && r.Ok? ==>
              IsFlags(r.value.flags) && spec.text == Delimit(r.value.body, r.value.flags)
    ensures spec.Str? && r.Err? ==> r.message == InvalidPrefix + spec.text
  {
    match spec
    case Compiled(p) => Ok(p)
    case Str(s) =>
      match SplitDelimited(s)
      case Ok((body, flags)) => Ok(Pattern(body, flags))
      case Err(m) => Err(m)
  }

  /** Flags never contain `/`, so the last `/` of a delimited string closes the body. */
  lemma LastSlashOfDelimit(body: string, flags: string)
    requires IsFlags(flags)
    ensures LastSlash(Delimit(body, flags)) == Some(|body| + 1)
  {
    var s := Delimit(body, flags);
    var j := |body| + 1;
    assert s[j] == '/';
    forall k | j < k < |s|
      ensures s[k] != '/'
    {
      assert s[k] == flags[k - j - 1];
      assert IsFlagChar(flags[k - j - 1]);
    }
  }

  /** Splitting a delimited string gives back its body and flags. */
  lemma SplitDelimit(body: string, flags: string)
    requires IsFlags(flags)
    ensures SplitDelimited(Delimit(body, flags)) == Ok((body, flags))
  {
    var s := Delimit(body, flags);
    LastSlashOfDelimit(body, flags);
    var j := |body| + 1;
    assert s[1..j] == body;
    assert s[j + 1..] == flags;
  }

  /** A delimited string can be split in only one way. */
  lemma DelimitInjective(b1: string, f1: string, b2: string, f2: string)
    requires IsFlags(f1) && IsFlags(f2)
    requires Delimit(b1, f1) == Delimit(b2, f2)
    ensures b1 == b2 && f1 == f2
  {
    SplitDelimit(b1, f1);
    SplitDelimit(b2, f2);
  }

  /** A string is accepted exactly when it matches the delimited grammar. */
  lemma SplitAcceptsGrammar(s: string)
    ensures SplitDelimited(s).Ok? <==> Delimited(s)
  {
    if Delimited(s) {
      var body, flags :| IsFlags(flags) && s == Delimit(body, flags);
      SplitDelimit(body, flags);
    }
  }

  /**
   * The grammar in elementary terms: a leading `/`, another `/` after index 0,
   * and only flag letters after the last `/`.
   */
  lemma SplitAcceptsExactly(s: string)
    ensures SplitDelimited(s).Ok? <==>
              (|s| >= 2 && s[0] == '/' &&
               exists j :: 0 < j < |s| && s[j] == '/' && IsFlags(s[j + 1..]))
  {
  }

  /** A resolved string pattern carries the body and flags of its delimited form. */
  lemma ResolveDelimit(body: string, flags: string)
    requires IsFlags(flags)
    ensures Resolve(Str(Delimit(body, flags))) == Ok(Pattern(body, flags))
  {
    SplitDelimit(body, flags);
  }
}
