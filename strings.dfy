/** The few JavaScript string operations the server relies on, stated over
    `string` (a sequence of characters). */
module Strings {
  import opened Wrappers

  /** `p` occurs in `s` starting at index `k`. */
  predicate OccursAt(s: string, p: string, k: nat) {
    k + |p| <= |s| && s[k..k + |p|] == p
  }

  /** `k` is the leftmost index at which `p` occurs in `s`. */
  predicate IsFirstOccurrence(s: string, p: string, k: nat) {
    OccursAt(s, p, k) && forall j: nat :: j < k ==> !OccursAt(s, p, j)
  }

  /** `s.indexOf(p, from)`: the leftmost occurrence at or after `from`. For a
      start beyond the end this gives `None` even for the empty pattern, where
      JavaScript clamps the start to the length; `IndexOf` only starts at 0. */
  function IndexFrom(s: string, p: string, from: nat): (r: Option<nat>)
    ensures r.Some? ==> from <= r.value && OccursAt(s, p, r.value)
    ensures r.Some? ==> forall j: nat :: from <= j < r.value ==> !OccursAt(s, p, j)
    ensures r.None? ==> forall j: nat :: from <= j ==> !OccursAt(s, p, j)
    decreases |s| - from
  {
    if from + |p| > |s| then None
    else if s[from..from + |p|] == p then Some(from)
    else IndexFrom(s, p, from + 1)
  }

  /** `s.indexOf(p)`, with `None` for JavaScript's -1. */
  function IndexOf(s: string, p: string): (r: Option<nat>)
    ensures r.Some? ==> IsFirstOccurrence(s, p, r.value)
    ensures r.None? ==> forall j: nat :: !OccursAt(s, p, j)
  {
    IndexFrom(s, p, 0)
  }

  /** `s.replace(p, r)` with a string pattern: only the leftmost occurrence of
      `p` is replaced, and `s` is returned unchanged when `p` does not occur.
      The replacement text is taken literally. */
  function ReplaceFirst(s: string, p: string, r: string): (out: string)
    ensures forall k: nat :: IsFirstOccurrence(s, p, k) ==> out == s[..k] + r + s[k + |p|..]
    ensures (forall k: nat :: !OccursAt(s, p, k)) ==> out == s
  {
    match IndexOf(s, p)
    case None => s
    case Some(k) => s[..k] + r + s[k + |p|..]
  }

  /** `replace` rewrites the occurrence after `pre` when `pre` holds no
      occurrence of the pattern, not even one running into `p`. */
  lemma ReplaceFirstAfter(pre: string, p: string, post: string, r: string)
    requires forall j: nat :: j < |pre| ==> !OccursAt(pre + p + post, p, j)
    ensures ReplaceFirst(pre + p + post, p, r) == pre + r + post
  {
    var s := pre + p + post;
    assert s[|pre|..|pre| + |p|] == p;
    assert IsFirstOccurrence(s, p, |pre|);
    assert s[..|pre|] == pre && s[|pre| + |p|..] == post;
  }

  /** `s.endsWith(suffix)`. */
  predicate EndsWith(s: string, suffix: string) {
    |suffix| <= |s| && s[|s| - |suffix|..] == suffix
  }

  /** `s.replace(/a/g, b)` for a one-character pattern `a`: every `a` becomes `b`. */
  function ReplaceChar(s: string, a: char, b: char): (r: string)
    ensures |r| == |s|
    ensures forall i :: 0 <= i < |s| ==> r[i] == (if s[i] == a then b else s[i])
  {
    if s == [] then [] else [if s[0] == a then b else s[0]] + ReplaceChar(s[1..], a, b)
  }

  /** `parts.join("")`. */
  function Concat(parts: seq<string>): string {
    if parts == [] then "" else parts[0] + Concat(parts[1..])
  }

  /** `xs.map(f)`. */
  function Map(f: string -> string, xs: seq<string>): seq<string> {
    seq(|xs|, i requires 0 <= i < |xs| => f(xs[i]))
  }

  /** Mapping a non-empty sequence: the first image, then the rest. */
  lemma MapCons(f: string -> string, xs: seq<string>)
    requires xs != []
    ensures Map(f, xs) == [f(xs[0])] + Map(f, xs[1..])
  {
    var m, tail := Map(f, xs), Map(f, xs[1..]);
    forall i | 0 <= i < |tail|
      ensures m[i + 1] == tail[i]
    {
      assert xs[i + 1] == xs[1..][i];
    }
    assert m == [f(xs[0])] + tail;
  }

  /** Joining distributes over concatenation of the parts. */
  lemma {:induction false} ConcatAppend(a: seq<string>, b: seq<string>)
    ensures Concat(a + b) == Concat(a) + Concat(b)
  {
    if a != [] {
      assert (a + b)[1..] == a[1..] + b;
      ConcatAppend(a[1..], b);
    } else {
      assert a + b == b;
    }
  }

  /** ASCII upper-casing of one character, the part of `toUpperCase` modelled. */
  function UpperCase(c: char): (u: char)
    ensures 'a' <= c <= 'z' ==> 'A' <= u <= 'Z' && u as int == c as int - 32
    ensures !('a' <= c <= 'z') ==> u == c
  {
    if 'a' <= c <= 'z' then (c as int - 32) as char else c
  }
}
