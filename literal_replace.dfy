/**
 * A stand-in for `String.prototype.replace` with a regular expression: the
 * pattern's body is matched as a literal substring. Without the `g` flag only
 * the leftmost occurrence is replaced; with it every non-overlapping occurrence
 * is, scanning left to right, and an empty body matches at every position.
 */
module LiteralReplace {
  import opened Results
  import opened ToRegExp

  /** `pat` occurs in `s` starting at index `i`. */
  predicate OccursAt(s: string, pat: string, i: nat) {
    i + |pat| <= |s| && s[i..i + |pat|] == pat
  }

  /** The index of the leftmost occurrence of `pat` in `s` at or after `k`, if any. */
  function IndexFrom(s: string, pat: string, k: nat): (r: Option<nat>)
    ensures r.Some? ==> k <= r.value && OccursAt(s, pat, r.value)
    ensures r.Some? ==> forall j :: k <= j < r.value ==> !OccursAt(s, pat, j)
    ensures r.None? ==> forall j :: k <= j <= |s| ==> !OccursAt(s, pat, j)
    decreases |s| - k
  {
    if k > |s| then None
    else if OccursAt(s, pat, k) then Some(k)
    else IndexFrom(s, pat, k + 1)
  }

  /** The index of the leftmost occurrence of `pat` in `s`, if any. */
  function IndexOf(s: string, pat: string): (r: Option<nat>)
    ensures r.Some? ==> OccursAt(s, pat, r.value)
    ensures r.Some? ==> forall j :: 0 <= j < r.value ==> !OccursAt(s, pat, j)
    ensures r.None? ==> forall j :: 0 <= j <= |s| ==> !OccursAt(s, pat, j)
  {
    IndexFrom(s, pat, 0)
  }

  /** The leftmost occurrence is the one `IndexOf` finds. */
  lemma IndexOfLeftmost(s: string, pat: string, i: nat)
    requires OccursAt(s, pat, i)
    requires forall j :: 0 <= j < i ==> !OccursAt(s, pat, j)
    ensures IndexOf(s, pat) == Some(i)
  {
  }

  /** Without any occurrence `IndexOf` finds nothing. */
  lemma IndexOfAbsent(s: string, pat: string)
    requires forall j :: 0 <= j <= |s| ==> !OccursAt(s, pat, j)
    ensures IndexOf(s, pat) == None
  {
  }

  /**
   * Replace the leftmost occurrence of `pat` in `s` by `repl`: the text
   * before it and after it is kept, and `repl` stands where it was.
   */
  function ReplaceFirst(s: string, pat: string, repl: string): (r: string)
    ensures IndexOf(s, pat).None? ==> r == s
    ensures IndexOf(s, pat).Some? ==>
              var i := IndexOf(s, pat).value;
              && |r| == |s| - |pat| + |repl|
              && r[..i] == s[..i]
              && OccursAt(r, repl, i)
              && r[i + |repl|..] == s[i + |pat|..]
  {
    match IndexOf(s, pat)
    case None => s
    case Some(i) =>
      var r := s[..i] + repl + s[i + |pat|..];
      assert r[i..i + |repl|] == repl;
      r
  }

  /** Replace every occurrence of `pat` in `s` by `repl`, leftmost first. */
  function ReplaceAll(s: string, pat: string, repl: string): (r: string)
    ensures pat == [] ==> |r| == |s| + (|s| + 1) * |repl|
    ensures pat != [] && IndexOf(s, pat).None? ==> r == s
    ensures pat != [] && IndexOf(s, pat).Some? ==>
              OccursAt(r, repl, IndexOf(s, pat).value) &&
              r[..IndexOf(s, pat).value] == s[..IndexOf(s, pat).value]
  {
    if pat == [] then ReplaceAllEmpty(s, repl) else ReplaceEach(s, pat, repl)
  }

  /**
   * A global empty match is found at every position, the scan stepping one
   * character past each one: `repl` is inserted at each of the `|s| + 1`
   * positions.
   */
  function ReplaceAllEmpty(s: string, repl: string): (r: string)
    ensures |r| == |s| + (|s| + 1) * |repl|
    decreases |s|
  {
    if s == [] then repl else repl + [s[0]] + ReplaceAllEmpty(s[1..], repl)
  }

  /**
   * Replace the non-overlapping occurrences of a non-empty `pat`, left to
   * right: the text before the first occurrence is kept and `repl` stands at
   * its place.
   */
  function ReplaceEach(s: string, pat: string, repl: string): (r: string)
    requires pat != []
    ensures IndexOf(s, pat).None? ==> r == s
    ensures IndexOf(s, pat).Some? ==>
              OccursAt(r, repl, IndexOf(s, pat).value) &&
              r[..IndexOf(s, pat).value] == s[..IndexOf(s, pat).value]
    decreases |s|
  {
    match IndexOf(s, pat)
    case None => s
    case Some(i) =>
      var r := s[..i] + repl + ReplaceEach(s[i + |pat|..], pat, repl);
      assert r[i..i + |repl|] == repl;
      r
  }

  /** The `g` flag selects global replacement. */
  predicate IsGlobal(p: Pattern) {
    'g' in p.flags
  }

  /**
   * The literal stand-in for `src.replace(pattern, replacement)`. A string
   * without an occurrence of a non-empty body is left alone.
   */
  function Replace(s: string, p: Pattern, repl: string): (r: string)
    ensures p.body != [] && IndexOf(s, p.body).None? ==> r == s
  {
    if IsGlobal(p) then ReplaceAll(s, p.body, repl) else ReplaceFirst(s, p.body, repl)
  }

  /** Replacing a non-empty body by itself leaves the string unchanged, with or without `g`. */
  lemma ReplaceSelf(s: string, p: Pattern)
    requires p.body != []
    ensures Replace(s, p, p.body) == s
  {
    if IsGlobal(p) {
      ReplaceEachSelf(s, p.body);
    } else if IndexOf(s, p.body).Some? {
      SplitAtOccurrence(s, p.body, IndexOf(s, p.body).value);
    }
  }

  /** Without an occurrence nothing is replaced, in either mode. */
  lemma ReplaceAbsent(s: string, p: Pattern, repl: string)
    requires p.body != []
    requires forall j :: 0 <= j <= |s| ==> !OccursAt(s, p.body, j)
    ensures Replace(s, p, repl) == s
  {
  }

  /**
   * A first-match replacement splices `repl` in at the leftmost occurrence
   * and keeps everything before and after it.
   */
  lemma ReplaceFirstSplices(s: string, p: Pattern, repl: string, i: nat)
    requires !IsGlobal(p)
    requires OccursAt(s, p.body, i)
    requires forall j :: 0 <= j < i ==> !OccursAt(s, p.body, j)
    ensures Replace(s, p, repl) == s[..i] + repl + s[i + |p.body|..]
  {
  }

  /**
   * A global replacement with a non-empty `pat` splices `repl` in at the
   * leftmost occurrence and goes on after the replaced text.
   */
  lemma ReplaceAllSplices(s: string, pat: string, repl: string, i: nat)
    requires pat != []
    requires OccursAt(s, pat, i)
    requires forall j :: 0 <= j < i ==> !OccursAt(s, pat, j)
    ensures ReplaceAll(s, pat, repl) == s[..i] + repl + ReplaceAll(s[i + |pat|..], pat, repl)
  {
    IndexOfLeftmost(s, pat, i);
    var rest := s[i + |pat|..];
    assert ReplaceEach(s, pat, repl) == s[..i] + repl + ReplaceEach(rest, pat, repl);
    assert ReplaceAll(rest, pat, repl) == ReplaceEach(rest, pat, repl);
  }

  /** An occurrence of `pat` at `i` cuts `s` into three parts around it. */
  lemma SplitAtOccurrence(s: string, pat: string, i: nat)
    requires OccursAt(s, pat, i)
    ensures s == s[..i] + pat + s[i + |pat|..]
  {
  }

  /** Replacing every occurrence of a non-empty `pat` by itself changes nothing. */
  lemma {:induction false} ReplaceEachSelf(s: string, pat: string)
    requires pat != []
    ensures ReplaceEach(s, pat, pat) == s
    decreases |s|
  {
    var k := IndexOf(s, pat);
    if k.Some? {
      var i := k.value;
      var rest := s[i + |pat|..];
      ReplaceEachSelf(rest, pat);
      SplitAtOccurrence(s, pat, i);
    }
  }

  /** Where the `i`-th copy of `repl` starts in a global empty-pattern replacement. */
  function Slot(i: nat, repl: string): nat
  {
    i * (|repl| + 1)
  }

  /**
   * A global empty-pattern replacement puts a copy of `repl` at each of the
   * `|s| + 1` positions of `s`, and keeps the characters of `s` in order
   * between them.
   */
  lemma {:induction false} ReplaceAllEmptyPositions(s: string, repl: string)
    ensures forall i :: 0 <= i <= |s| ==>
              Slot(i, repl) + |repl| <= |ReplaceAllEmpty(s, repl)| &&
              ReplaceAllEmpty(s, repl)[Slot(i, repl)..Slot(i, repl) + |repl|] == repl
    ensures forall i :: 0 <= i < |s| ==>
              Slot(i, repl) + |repl| < |ReplaceAllEmpty(s, repl)| &&
              ReplaceAllEmpty(s, repl)[Slot(i, repl) + |repl|] == s[i]
    decreases |s|
  {
    if s != [] {
      var r := ReplaceAllEmpty(s, repl);
      var t := ReplaceAllEmpty(s[1..], repl);
      var k := |repl| + 1;
      ReplaceAllEmptyPositions(s[1..], repl);
      assert r == repl + [s[0]] + t;
      forall i | 1 <= i <= |s|
        ensures Slot(i, repl) == Slot(i - 1, repl) + k
      {
        assert i * k == (i - 1) * k + k;
      }
      forall i | 0 <= i <= |s|
        ensures Slot(i, repl) + |repl| <= |r| && r[Slot(i, repl)..Slot(i, repl) + |repl|] == repl
      {
        if i == 0 {
          assert r[..|repl|] == repl;
        } else {
          var j := Slot(i - 1, repl);
          assert t[j..j + |repl|] == repl;
          assert r[j + k..j + k + |repl|] == t[j..j + |repl|];
        }
      }
      forall i | 0 <= i < |s|
        ensures Slot(i, repl) + |repl| < |r| && r[Slot(i, repl) + |repl|] == s[i]
      {
        if i > 0 {
          var j := Slot(i - 1, repl);
          assert t[j + |repl|] == s[1..][i - 1];
          assert r[j + k + |repl|] == t[j + |repl|];
        }
      }
    }
  }
}
