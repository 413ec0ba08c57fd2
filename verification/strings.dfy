/** The JavaScript string primitives the upload pipeline is built from:
    substring search (`includes`, `indexOf`), `split` on one character,
    ASCII `toLowerCase`, and the `$`-pattern expansion that
    `String.prototype.replace` applies to a string replacement. */
module Strings {
  import opened Wrappers

  // ---------------------------------------------------------------------
  // Substring search
  // ---------------------------------------------------------------------

  /** `p` occurs in `s` starting at index `k`. */
  predicate OccursAt(s: string, p: string, k: nat) {
    k + |p| <= |s| && s[k..k + |p|] == p
  }

  /** JavaScript `s.includes(p)`. */
  predicate Contains(s: string, p: string) {
    exists k: nat :: k <= |s| && OccursAt(s, p, k)
  }

  /** `k` is the leftmost occurrence of `p` in `s`. */
  predicate FirstOccurrence(s: string, p: string, k: nat) {
    OccursAt(s, p, k) && forall j: nat :: j < k ==> !OccursAt(s, p, j)
  }

  /** Leftmost occurrence of `p` in `s` at an index no smaller than `i`. */
  function FindFrom(s: string, p: string, i: nat): (r: Option<nat>)
    decreases |s| - i
    ensures r.Some? ==> i <= r.value && OccursAt(s, p, r.value)
    ensures forall k: nat :: i <= k && (r.None? || k < r.value) ==> !OccursAt(s, p, k)
  {
    if i + |p| > |s| then None
    else if s[i..i + |p|] == p then Some(i)
    else FindFrom(s, p, i + 1)
  }

  /** JavaScript `s.indexOf(p)`, with `None` for -1. */
  function IndexOf(s: string, p: string): (r: Option<nat>)
    ensures r.None? <==> !Contains(s, p)
    ensures r.Some? ==> FirstOccurrence(s, p, r.value)
  {
    FindFrom(s, p, 0)
  }

  lemma FirstOccurrenceUnique(s: string, p: string, i: nat, j: nat)
    requires FirstOccurrence(s, p, i) && FirstOccurrence(s, p, j)
    ensures i == j
  {
  }

  // ---------------------------------------------------------------------
  // Single characters
  // ---------------------------------------------------------------------

  /** Index of the first `c` in `s`. */
  function FirstIndexOf(s: string, c: char): (r: Option<nat>)
    ensures r.None? <==> c !in s
    ensures r.Some? ==> r.value < |s| && s[r.value] == c && c !in s[..r.value]
  {
    if |s| == 0 then None
    else if s[0] == c then Some(0)
    else
      var t := FirstIndexOf(s[1..], c);
      if t.None? then None
      else
        assert s[..t.value + 1] == [s[0]] + s[1..][..t.value];
        Some(t.value + 1)
  }

  /** A `c` with no `c` before it is the first one. */
  lemma FirstIndexOfUnique(s: string, c: char, j: nat)
    requires j < |s| && s[j] == c && c !in s[..j]
    ensures FirstIndexOf(s, c) == Some(j)
  {
  }

  /** Index of the last `c` in `s`. */
  function LastIndexOf(s: string, c: char): (r: Option<nat>)
    ensures r.None? <==> c !in s
    ensures r.Some? ==> r.value < |s| && s[r.value] == c && c !in s[r.value + 1..]
  {
    if |s| == 0 then None
    else if s[|s| - 1] == c then Some(|s| - 1)
    else
      var t := LastIndexOf(s[..|s| - 1], c);
      if t.None? then
        assert s == s[..|s| - 1] + [s[|s| - 1]];
        None
      else
        assert s[t.value + 1..] == s[..|s| - 1][t.value + 1..] + [s[|s| - 1]];
        Some(t.value)
  }

  // ---------------------------------------------------------------------
  // split / join
  // ---------------------------------------------------------------------

  /** Inverse of `Split`: the parts glued back with `c` between them. */
  function Join(parts: seq<string>, c: char): string
  {
    if |parts| == 0 then ""
    else if |parts| == 1 then parts[0]
    else parts[0] + [c] + Join(parts[1..], c)
  }

  /** JavaScript `s.split(c)` for a one-character separator: the maximal
      runs between separators, with an empty run wherever two separators
      touch or one sits at an end. There is always at least one part. */
  function Split(s: string, c: char): (r: seq<string>)
    decreases |s|
    ensures |r| >= 1
  {
    match FirstIndexOf(s, c)
    case None => [s]
    case Some(i) => [s[..i]] + Split(s[i + 1..], c)
  }

  /** Splitting loses nothing: joining the parts back gives the input. */
  lemma {:induction false} SplitJoin(s: string, c: char)
    decreases |s|
    ensures Join(Split(s, c), c) == s
  {
    match FirstIndexOf(s, c)
    case None =>
    case Some(i) =>
      var rest := Split(s[i + 1..], c);
      SplitJoin(s[i + 1..], c);
      JoinCons(s[..i], rest, c);
      Reassemble(s, i);
  }

  lemma JoinCons(a: string, rest: seq<string>, c: char)
    requires |rest| >= 1
    ensures Join([a] + rest, c) == a + [c] + Join(rest, c)
  {
    assert ([a] + rest)[1..] == rest;
  }

  lemma Reassemble(s: string, i: nat)
    requires i < |s|
    ensures s[..i] + [s[i]] + s[i + 1..] == s
  {
    assert s == s[..i] + s[i..];
    assert s[i..] == [s[i]] + s[i + 1..];
  }

  /** Text without `c` is a single part. */
  lemma SplitNone(s: string, c: char)
    requires c !in s
    ensures Split(s, c) == [s]
  {
  }

  /** Splitting `a + [c] + b` for a `c`-free `a` gives `a` and then the parts
      of `b`. */
  lemma SplitAtFirst(a: string, b: string, c: char)
    requires c !in a
    ensures Split(a + [c] + b, c) == [a] + Split(b, c)
  {
    var s := a + [c] + b;
    FirstIndexOfUnique(s, c, |a|);
    assert s[..|a|] == a;
    assert s[|a| + 1..] == b;
  }

  /** Three `c`-free pieces joined by `c` split back into those pieces. */
  lemma SplitThree(a: string, b: string, d: string, c: char)
    requires c !in a && c !in b && c !in d
    ensures Split(a + [c] + b + [c] + d, c) == [a, b, d]
  {
    var rest := b + [c] + d;
    assert a + [c] + b + [c] + d == a + [c] + rest;
    SplitNone(d, c);
    SplitAtFirst(b, d, c);
    assert Split(rest, c) == [b, d];
    SplitAtFirst(a, rest, c);
    assert [a] + [b, d] == [a, b, d];
  }

  /** The text after the last `c` of `s`, or all of `s` when it has none. */
  function AfterLast(s: string, c: char): (r: string)
    ensures c !in r
  {
    match LastIndexOf(s, c)
    case None => s
    case Some(j) => s[j + 1..]
  }

  /** `AfterLast` is the longest `c`-free suffix: it ends `s`, and it is
      all of `s` or follows a `c`. */
  lemma AfterLastSuffix(s: string, c: char)
    ensures var r := AfterLast(s, c);
            && |r| <= |s| && s[|s| - |r|..] == r
            && (|r| == |s| || s[|s| - |r| - 1] == c)
            && (|r| == 0 <==> |s| == 0 || s[|s| - 1] == c)
  {
    match LastIndexOf(s, c)
    case None =>
    case Some(j) =>
      assert |s| - |s[j + 1..]| - 1 == j;
      if j + 1 < |s| {
        assert s[|s| - 1] in s[j + 1..];
      }
  }

  /** The part of `s` before its first `c` (all of `s` when there is none):
      `s.split(c)[0]`. */
  lemma SplitHead(s: string, c: char)
    ensures FirstIndexOf(s, c).None? ==> Split(s, c) == [s]
    ensures FirstIndexOf(s, c).Some? ==> Split(s, c)[0] == s[..FirstIndexOf(s, c).value]
  {
  }

  /** `s.split(c)[1]` exists exactly when `s` holds a `c`, and it is the
      text between the first `c` and the next one (or the end). */
  lemma SplitSecond(s: string, c: char)
    requires c in s
    ensures |Split(s, c)| >= 2
    ensures var i := FirstIndexOf(s, c).value;
            Split(s, c)[1] == Split(s[i + 1..], c)[0]
  {
    var i := FirstIndexOf(s, c).value;
    var rest := Split(s[i + 1..], c);
    assert Split(s, c) == [s[..i]] + rest;
  }

  /** A `c` with no `c` after it is the last one. */
  lemma LastIndexOfUnique(s: string, c: char, j: nat)
    requires j < |s| && s[j] == c && c !in s[j + 1..]
    ensures LastIndexOf(s, c) == Some(j)
  {
  }

  /** `s.split(c).pop()` is the text after the last `c`, or all of `s`. */
  lemma {:induction false} SplitLast(s: string, c: char)
    decreases |s|
    ensures var parts := Split(s, c);
            parts[|parts| - 1] == AfterLast(s, c)
  {
    match FirstIndexOf(s, c)
    case None =>
      SplitNone(s, c);
    case Some(i) =>
      var t := s[i + 1..];
      var rest := Split(t, c);
      SplitCons(s, c, i);
      LastOfCons(s[..i], rest);
      SplitLast(t, c);
      AfterLastSkip(s, c, i);
  }

  lemma SplitCons(s: string, c: char, i: nat)
    requires FirstIndexOf(s, c) == Some(i)
    ensures Split(s, c) == [s[..i]] + Split(s[i + 1..], c)
  {
  }

  lemma LastOfCons<T>(a: T, rest: seq<T>)
    requires |rest| >= 1
    ensures var parts := [a] + rest; parts[|parts| - 1] == rest[|rest| - 1]
  {
  }

  /** Dropping a prefix that ends in `c` does not change what follows the
      last `c`. */
  lemma AfterLastSkip(s: string, c: char, i: nat)
    requires i < |s| && s[i] == c
    ensures AfterLast(s, c) == AfterLast(s[i + 1..], c)
  {
    var t := s[i + 1..];
    match LastIndexOf(t, c)
    case None =>
      LastIndexOfUnique(s, c, i);
    case Some(k) =>
      var j := i + 1 + k;
      assert s[j + 1..] == t[k + 1..];
      LastIndexOfUnique(s, c, j);
  }

  // ---------------------------------------------------------------------
  // toLowerCase (ASCII letters only)
  // ---------------------------------------------------------------------

  function LowerChar(ch: char): char {
    if 'A' <= ch <= 'Z' then (ch as int + 32) as char else ch
  }

  /** `s.toLowerCase()` restricted to ASCII: every letter 'A'..'Z' is
      mapped to its lower-case form and every other character is kept. */
  function ToLower(s: string): (r: string)
    ensures |r| == |s|
    ensures forall i :: 0 <= i < |s| ==> r[i] == LowerChar(s[i])
  {
    seq(|s|, i requires 0 <= i < |s| => LowerChar(s[i]))
  }

  lemma ToLowerIdempotent(s: string)
    ensures ToLower(ToLower(s)) == ToLower(s)
  {
  }

  /** Lower-casing touches only 'A'..'Z', so it never creates or removes
      an occurrence of any other character. */
  lemma ToLowerKeepsOtherChars(s: string, c: char)
    requires !('A' <= c <= 'Z') && !('a' <= c <= 'z')
    ensures c in ToLower(s) <==> c in s
  {
    if c in s {
      var i :| 0 <= i < |s| && s[i] == c;
      assert ToLower(s)[i] == c;
    }
    if c in ToLower(s) {
      var i :| 0 <= i < |s| && ToLower(s)[i] == c;
      assert s[i] == c;
    }
  }

  // ---------------------------------------------------------------------
  // Replacement patterns of String.prototype.replace
  // ---------------------------------------------------------------------

  /** The replacement text `String.prototype.replace` inserts when given the
      string `repl`, for a match `matched` with `before` to its left and
      `after` to its right, and a pattern without capture groups:
      `$$` gives `$`, `$&` the match, `` $` `` the text before it, `$'` the
      text after it; every other `$` (including `$1` and `$<`, which name
      groups the pattern does not have) is kept literally. */
  function Substitute(repl: string, before: string, matched: string, after: string): string
    decreases |repl|
  {
    if |repl| == 0 then ""
    else if repl[0] == '$' && |repl| >= 2 && repl[1] in "$&`'" then
      var piece := match repl[1]
        case '$' => "$"
        case '&' => matched
        case '`' => before
        case _ => after;
      piece + Substitute(repl[2..], before, matched, after)
    else [repl[0]] + Substitute(repl[1..], before, matched, after)
  }

  /** Without a `$` the replacement is inserted verbatim. */
  lemma {:induction false} SubstituteLiteral(repl: string, before: string, matched: string, after: string)
    decreases |repl|
    requires '$' !in repl
    ensures Substitute(repl, before, matched, after) == repl
  {
    if |repl| > 0 {
      assert repl == [repl[0]] + repl[1..];
      SubstituteLiteral(repl[1..], before, matched, after);
    }
  }

  /** Every character of the expansion comes from the replacement, from the
      three pieces of the subject, or is a `$`. */
  lemma {:induction false} SubstituteChars(repl: string, before: string, matched: string, after: string, c: char)
    decreases |repl|
    requires c != '$' && c !in repl && c !in before && c !in matched && c !in after
    ensures c !in Substitute(repl, before, matched, after)
  {
    if |repl| > 0 {
      if repl[0] == '$' && |repl| >= 2 && repl[1] in "$&`'" {
        assert c !in repl[2..] by { assert forall x :: x in repl[2..] ==> x in repl; }
        SubstituteChars(repl[2..], before, matched, after, c);
      } else {
        assert c !in repl[1..] by { assert forall x :: x in repl[1..] ==> x in repl; }
        SubstituteChars(repl[1..], before, matched, after, c);
      }
    }
  }

  /** JavaScript `s.replace(p, repl)` with a string pattern: only the
      leftmost occurrence of `p` is replaced. */
  function ReplaceFirst(s: string, p: string, repl: string): (r: string)
    ensures !Contains(s, p) ==> r == s
    ensures forall i: nat :: FirstOccurrence(s, p, i) && '$' !in repl ==>
              r == s[..i] + repl + s[i + |p|..]
    ensures forall i: nat :: FirstOccurrence(s, p, i) ==>
              r == s[..i] + Substitute(repl, s[..i], p, s[i + |p|..]) + s[i + |p|..]
  {
    match IndexOf(s, p)
    case None => s
    case Some(i) =>
      forall j: nat | FirstOccurrence(s, p, j) ensures j == i { FirstOccurrenceUnique(s, p, i, j); }
      assert '$' !in repl ==> Substitute(repl, s[..i], p, s[i + |p|..]) == repl by {
        if '$' !in repl { SubstituteLiteral(repl, s[..i], p, s[i + |p|..]); }
      }
      s[..i] + Substitute(repl, s[..i], p, s[i + |p|..]) + s[i + |p|..]
  }
}
