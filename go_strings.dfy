/** The Go `strings` functions the tool relies on: `ReplaceAll`,
    `TrimRight` and a `Replacer` built with `NewReplacer`. */
module GoStrings {
  import opened Wrappers

  predicate HasPrefix(s: string, prefix: string)
  {
    |prefix| <= |s| && s[..|prefix|] == prefix
  }

  /** `pattern` occurs in `s` starting at index `i`. */
  predicate OccursAt(s: string, pattern: string, i: int)
  {
    0 <= i && i + |pattern| <= |s| && s[i..i + |pattern|] == pattern
  }

  predicate Occurs(s: string, pattern: string)
  {
    exists i :: 0 <= i <= |s| && OccursAt(s, pattern, i)
  }

  /** `strings.ReplaceAll(s, old, new)` for a non-empty `old` (named
      `target` and `replacement` here): scanning left to right, every
      occurrence that does not overlap an earlier replaced one is
      replaced. */
  function ReplaceAll(s: string, target: string, replacement: string): (r: string)
    requires |target| > 0
    ensures |replacement| <= |target| ==> |r| <= |s|
    ensures |replacement| == |target| ==> |r| == |s|
    decreases |s|
  {
    if |s| < |target| then s
    else if HasPrefix(s, target) then replacement + ReplaceAll(s[|target|..], target, replacement)
    else [s[0]] + ReplaceAll(s[1..], target, replacement)
  }

  /** Text without the pattern is left as it is. */
  lemma {:induction false} ReplaceAllAbsent(s: string, target: string, replacement: string)
    requires |target| > 0 && !Occurs(s, target)
    ensures ReplaceAll(s, target, replacement) == s
    decreases |s|
  {
    if |s| >= |target| {
      if HasPrefix(s, target) {
        PrefixOccurs(s, target);
      }
      AbsentInTail(s, target);
      ReplaceAllAbsent(s[1..], target, replacement);
    }
  }

  /** Text without the pattern's first character is left as it is. */
  lemma ReplaceAllUntouched(s: string, target: string, replacement: string)
    requires |target| > 0
    ensures target[0] !in s ==> ReplaceAll(s, target, replacement) == s
  {
    if target[0] !in s {
      FirstAbsent(s, target);
      ReplaceAllAbsent(s, target, replacement);
    }
  }

  /** A text without the pattern's first character does not hold the
      pattern. */
  lemma FirstAbsent(s: string, target: string)
    requires |target| > 0
    ensures target[0] !in s ==> !Occurs(s, target)
  {
  }

  lemma PrefixOccurs(s: string, target: string)
    requires HasPrefix(s, target)
    ensures Occurs(s, target)
  {
    assert OccursAt(s, target, 0);
  }

  /** Text without the pattern has a tail without it. */
  lemma AbsentInTail(s: string, target: string)
    requires |s| > 0
    ensures !Occurs(s, target) ==> !Occurs(s[1..], target)
    ensures [s[0]] + s[1..] == s
  {
    if !Occurs(s, target) {
      forall i | 0 <= i <= |s[1..]| && OccursAt(s[1..], target, i)
        ensures false
      {
        OccursInTail(s, target, i);
      }
    }
  }

  lemma OccursInTail(s: string, pattern: string, i: int)
    requires |s| > 0 && OccursAt(s[1..], pattern, i)
    ensures OccursAt(s, pattern, i + 1)
  {
    assert s[1..][i..i + |pattern|] == s[i + 1..i + 1 + |pattern|];
  }

  lemma OccursInPrefix(s: string, k: nat, pattern: string)
    requires k <= |s| && Occurs(s[..k], pattern)
    ensures Occurs(s, pattern)
  {
    var i :| 0 <= i <= k && OccursAt(s[..k], pattern, i);
    assert s[..k][i..i + |pattern|] == s[i..i + |pattern|];
    assert OccursAt(s, pattern, i);
  }

  /** A shorter replacement never lengthens the text, and shortens it
      whenever the pattern occurs. */
  lemma {:induction false} ReplaceAllShrinks(s: string, target: string, replacement: string)
    requires |target| > 0 && |replacement| < |target|
    ensures |ReplaceAll(s, target, replacement)| <= |s|
    ensures Occurs(s, target) ==> |ReplaceAll(s, target, replacement)| < |s|
    decreases |s|
  {
    if |s| >= |target| {
      if HasPrefix(s, target) {
        ReplaceAllShrinks(s[|target|..], target, replacement);
      } else {
        ReplaceAllShrinks(s[1..], target, replacement);
        if Occurs(s, target) {
          var i :| 0 <= i <= |s| && OccursAt(s, target, i);
          assert i != 0;
          assert s[1..][i - 1..i - 1 + |target|] == s[i..i + |target|];
          assert OccursAt(s[1..], target, i - 1);
        }
      }
    }
  }

  /** Leading text that cannot start the pattern is copied through. */
  lemma {:induction false} ReplaceAllSkips(a: string, rest: string, target: string, replacement: string)
    requires |target| > 0 && target[0] !in a
    ensures ReplaceAll(a + rest, target, replacement) == a + ReplaceAll(rest, target, replacement)
    decreases |a|
  {
    if |a| > 0 {
      var s := a + rest;
      assert s[0] == a[0];
      if |s| < |target| {
        assert ReplaceAll(rest, target, replacement) == rest;
      } else {
        assert !HasPrefix(s, target) by {
          assert s[..|target|][0] == a[0];
        }
        assert s[1..] == a[1..] + rest;
        ReplaceAllSkips(a[1..], rest, target, replacement);
        assert [a[0]] + a[1..] == a;
      }
    } else {
      assert a + rest == rest;
    }
  }

  /** An occurrence at the front is replaced. */
  lemma ReplaceAllFront(target: string, rest: string, replacement: string)
    requires |target| > 0
    ensures ReplaceAll(target + rest, target, replacement) == replacement + ReplaceAll(rest, target, replacement)
  {
    var s := target + rest;
    assert s[..|target|] == target;
    assert s[|target|..] == rest;
  }

  /** `strings.TrimRight(s, cutset)`: the longest prefix of `s` that does
      not end in a character of `cutset`; everything removed is in
      `cutset`. */
  function TrimRight(s: string, cutset: string): (r: string)
    ensures |r| <= |s| && r == s[..|r|]
    ensures |r| > 0 ==> r[|r| - 1] !in cutset
    ensures forall k :: |r| <= k < |s| ==> s[k] in cutset
    decreases |s|
  {
    if |s| > 0 && s[|s| - 1] in cutset then TrimRight(s[..|s| - 1], cutset) else s
  }

  /** `strings.TrimLeft(s, cutset)`. */
  function TrimLeft(s: string, cutset: string): (r: string)
    ensures |r| <= |s| && r == s[|s| - |r|..]
    ensures |r| > 0 ==> r[0] !in cutset
    ensures forall k :: 0 <= k < |s| - |r| ==> s[k] in cutset
    decreases |s|
  {
    if |s| > 0 && s[0] in cutset then TrimLeft(s[1..], cutset) else s
  }

  /** The white space `strings.TrimSpace` removes, as far as ASCII goes. */
  const AsciiSpace: string := " \t\n\U{000B}\U{000C}\r"

  /** Every character of `s` is in `cutset`. */
  predicate OnlyOf(s: string, cutset: string)
  {
    forall i :: 0 <= i < |s| ==> s[i] in cutset
  }

  /** `strings.TrimSpace(s)` on ASCII white space: a piece of `s` that
      neither starts nor ends with white space. */
  function TrimSpace(s: string): (r: string)
    ensures |r| <= |s|
    ensures |r| > 0 ==> r[0] !in AsciiSpace && r[|r| - 1] !in AsciiSpace
    ensures OnlyOf(s, AsciiSpace) ==> r == ""
  {
    TrimRight(TrimLeft(s, AsciiSpace), AsciiSpace)
  }

  /** White space around a text with non-blank ends is removed, and the
      text is kept. */
  lemma TrimSpaceStrips(before: string, t: string, after: string)
    requires OnlyOf(before, AsciiSpace) && OnlyOf(after, AsciiSpace)
    requires |t| > 0 && t[0] !in AsciiSpace && t[|t| - 1] !in AsciiSpace
    ensures TrimSpace(before + t + after) == t
  {
    assert before + t + after == before + (t + after);
    TrimLeftSkips(before, t + after, AsciiSpace);
    TrimRightSkips(t, after, AsciiSpace);
  }

  lemma {:induction false} TrimLeftSkips(w: string, u: string, cutset: string)
    requires OnlyOf(w, cutset) && |u| > 0 && u[0] !in cutset
    ensures TrimLeft(w + u, cutset) == u
    decreases |w|
  {
    if |w| == 0 {
      assert w + u == u;
    } else {
      assert (w + u)[0] == w[0];
      assert (w + u)[1..] == w[1..] + u;
      TrimLeftSkips(w[1..], u, cutset);
    }
  }

  lemma {:induction false} TrimRightSkips(u: string, w: string, cutset: string)
    requires OnlyOf(w, cutset) && |u| > 0 && u[|u| - 1] !in cutset
    ensures TrimRight(u + w, cutset) == u
    decreases |w|
  {
    if |w| == 0 {
      assert u + w == u;
    } else {
      var s := u + w;
      assert s[|s| - 1] == w[|w| - 1];
      assert s[..|s| - 1] == u + w[..|w| - 1];
      TrimRightSkips(u, w[..|w| - 1], cutset);
    }
  }

  /** Text without white space at either end is left as it is. */
  lemma TrimSpaceKeeps(s: string)
    requires |s| > 0 && s[0] !in AsciiSpace && s[|s| - 1] !in AsciiSpace
    ensures TrimSpace(s) == s
  {
  }

  /** One old/new pair of a `strings.Replacer`. */
  datatype Pair = Pair(target: string, replacement: string)

  predicate NonEmptyTargets(pairs: seq<Pair>)
  {
    forall k :: 0 <= k < |pairs| ==> |pairs[k].target| > 0
  }

  /** The pair a `strings.Replacer` uses at the front of `s`: the first,
      in argument order, whose `target` starts `s`. */
  function FirstMatch(pairs: seq<Pair>, s: string): (r: Option<nat>)
    ensures r.Some? ==> r.value < |pairs| && HasPrefix(s, pairs[r.value].target)
    ensures r.Some? ==> forall j :: 0 <= j < r.value ==> !HasPrefix(s, pairs[j].target)
    ensures r.None? ==> forall j :: 0 <= j < |pairs| ==> !HasPrefix(s, pairs[j].target)
  {
    if |pairs| == 0 then None
    else if HasPrefix(s, pairs[0].target) then Some(0)
    else match FirstMatch(pairs[1..], s)
      case Some(k) => Some(k + 1)
      case None => None
  }

  /** `strings.NewReplacer(pairs...).Replace(s)`: left to right, without
      overlapping; at each position the first matching pair wins,
      otherwise one character is copied. */
  function Replace(pairs: seq<Pair>, s: string): (r: string)
    requires NonEmptyTargets(pairs)
    ensures LengthPreserving(pairs) ==> |r| == |s|
    decreases |s|
  {
    if |s| == 0 then ""
    else match FirstMatch(pairs, s)
      case Some(k) => pairs[k].replacement + Replace(pairs, s[|pairs[k].target|..])
      case None => [s[0]] + Replace(pairs, s[1..])
  }

  /** The first pair, in argument order, that starts `s` is the one used. */
  lemma FirstMatchAt(pairs: seq<Pair>, s: string, k: nat)
    requires k < |pairs| && HasPrefix(s, pairs[k].target)
    requires forall j :: 0 <= j < k ==> !HasPrefix(s, pairs[j].target)
    ensures FirstMatch(pairs, s) == Some(k)
  {
  }

  /** The pair used at the front is replaced there, and the rest follows. */
  lemma ReplaceFront(pairs: seq<Pair>, k: nat, rest: string)
    requires NonEmptyTargets(pairs) && k < |pairs|
    requires FirstMatch(pairs, pairs[k].target + rest) == Some(k)
    ensures Replace(pairs, pairs[k].target + rest) == pairs[k].replacement + Replace(pairs, rest)
  {
    assert (pairs[k].target + rest)[|pairs[k].target|..] == rest;
  }

  predicate LengthPreserving(pairs: seq<Pair>)
  {
    forall k :: 0 <= k < |pairs| ==> |pairs[k].target| == |pairs[k].replacement| > 0
  }

  /** The pairs' `target` strings use only characters of `letters`. */
  predicate TargetsWithin(pairs: seq<Pair>, letters: set<char>)
  {
    forall k, i :: 0 <= k < |pairs| && 0 <= i < |pairs[k].target| ==> pairs[k].target[i] in letters
  }

  /** ... and every character that no `target` string contains is copied to
      the same position. */
  lemma {:induction false} ReplaceKeeps(pairs: seq<Pair>, letters: set<char>, s: string, i: nat)
    requires LengthPreserving(pairs) && TargetsWithin(pairs, letters)
    requires i < |s| && s[i] !in letters
    ensures |Replace(pairs, s)| == |s| && Replace(pairs, s)[i] == s[i]
    decreases |s|
  {
    match FirstMatch(pairs, s)
    case Some(k) =>
      var n := |pairs[k].target|;
      assert i >= n;
      ReplaceKeeps(pairs, letters, s[n..], i - n);
    case None =>
      if i > 0 {
        ReplaceKeeps(pairs, letters, s[1..], i - 1);
      }
  }
}
