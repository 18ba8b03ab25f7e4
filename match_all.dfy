/** The global scan of `String.prototype.matchAll`: an anchored matcher is
    tried at every position from left to right, and after a match the scan
    resumes where the match ends. The matcher is a parameter; the server
    uses the automaton of `NavDirective`. */
module MatchAll {
  import opened Wrappers

  /** A match anchored at the front of a text: how many characters it spans
      and the text its capture group took. */
  datatype Match = Match(length: nat, capture: string)

  /** An anchored matcher, applied to the rest of the text from a position. */
  type Matcher = string -> Option<Match>

  /** One match found in a text: where it starts, the text it spans (the
      `fullMatch`) and the text of the capture group. */
  datatype Found = Found(start: nat, full: string, capture: string)

  function End(d: Found): nat {
    d.start + |d.full|
  }

  /** The matcher tried at position `p` of `s`. A result that is empty or
      runs past the end of the text counts as no match; the automaton of the
      server never returns one. */
  function MatchAt(s: string, p: nat, matcher: Matcher): (r: Option<Match>)
    requires p <= |s|
    ensures r.Some? ==> 0 < r.value.length <= |s| - p
  {
    var r := matcher(s[p..]);
    if r.Some? && 0 < r.value.length <= |s| - p then r else None
  }

  /** `d` is a match at its own position in `s`. */
  predicate FoundIn(s: string, d: Found, matcher: Matcher) {
    End(d) <= |s| && s[d.start..End(d)] == d.full
    && MatchAt(s, d.start, matcher) == Some(Match(|d.full|, d.capture))
  }

  /** No match starts anywhere in `[lo, hi)`. */
  predicate NoMatchIn(s: string, lo: nat, hi: nat, matcher: Matcher) {
    forall p: nat :: lo <= p < hi && p <= |s| ==> MatchAt(s, p, matcher).None?
  }

  /** The scan from `from` on. */
  function ScanFrom(s: string, from: nat, matcher: Matcher): seq<Found>
    requires from <= |s|
    decreases |s| - from
  {
    if from == |s| then []
    else
      match MatchAt(s, from, matcher)
      case Some(m) => [Found(from, s[from..from + m.length], m.capture)] + ScanFrom(s, from + m.length, matcher)
      case None => ScanFrom(s, from + 1, matcher)
  }

  /** One step of the scan: a match at `from` is reported and the scan
      resumes at its end; otherwise the scan moves on by one character. */
  lemma ScanStep(s: string, from: nat, matcher: Matcher)
    requires from < |s|
    ensures MatchAt(s, from, matcher).Some? ==>
      var m := MatchAt(s, from, matcher).value;
      ScanFrom(s, from, matcher)
      == [Found(from, s[from..from + m.length], m.capture)] + ScanFrom(s, from + m.length, matcher)
    ensures MatchAt(s, from, matcher).None? ==> ScanFrom(s, from, matcher) == ScanFrom(s, from + 1, matcher)
  {
  }

  /** The matches the scan reports lie at or after `from`, in order, and do
      not overlap. */
  lemma {:induction false} ScanOrdered(s: string, from: nat, matcher: Matcher)
    requires from <= |s|
    ensures forall k :: 0 <= k < |ScanFrom(s, from, matcher)| ==> from <= ScanFrom(s, from, matcher)[k].start
    ensures forall k :: 0 <= k < |ScanFrom(s, from, matcher)| - 1 ==>
      End(ScanFrom(s, from, matcher)[k]) <= ScanFrom(s, from, matcher)[k + 1].start
    decreases |s| - from
  {
    if from < |s| {
      ScanStep(s, from, matcher);
      var ds := ScanFrom(s, from, matcher);
      if MatchAt(s, from, matcher).Some? {
        var n := MatchAt(s, from, matcher).value.length;
        var rest := ScanFrom(s, from + n, matcher);
        ScanOrdered(s, from + n, matcher);
        assert End(ds[0]) == from + n;
        forall k | 0 <= k < |ds| - 1
          ensures End(ds[k]) <= ds[k + 1].start
        {
          assert ds[k + 1] == rest[k];
          if k > 0 {
            assert ds[k] == rest[k - 1];
          }
        }
      } else {
        ScanOrdered(s, from + 1, matcher);
      }
    }
  }

  /** Every match the scan reports is a match at its own position. */
  lemma {:induction false} ScanFound(s: string, from: nat, matcher: Matcher)
    requires from <= |s|
    ensures forall k :: 0 <= k < |ScanFrom(s, from, matcher)| ==> FoundIn(s, ScanFrom(s, from, matcher)[k], matcher)
    decreases |s| - from
  {
    if from < |s| {
      ScanStep(s, from, matcher);
      var ds := ScanFrom(s, from, matcher);
      if MatchAt(s, from, matcher).Some? {
        var n := MatchAt(s, from, matcher).value.length;
        var rest := ScanFrom(s, from + n, matcher);
        ScanFound(s, from + n, matcher);
        forall k | 0 <= k < |ds|
          ensures FoundIn(s, ds[k], matcher)
        {
          if k > 0 {
            assert ds[k] == rest[k - 1];
          }
        }
      } else {
        ScanFound(s, from + 1, matcher);
      }
    }
  }

  /** No match starts before the first match the scan reports, nor anywhere
      from `from` on when it reports none. */
  lemma {:induction false} ScanLead(s: string, from: nat, matcher: Matcher)
    requires from <= |s|
    ensures ScanFrom(s, from, matcher) == [] ==> NoMatchIn(s, from, |s|, matcher)
    ensures ScanFrom(s, from, matcher) != [] ==> NoMatchIn(s, from, ScanFrom(s, from, matcher)[0].start, matcher)
    decreases |s| - from
  {
    if from < |s| {
      ScanStep(s, from, matcher);
      if MatchAt(s, from, matcher).None? {
        ScanLead(s, from + 1, matcher);
      }
    }
  }

  /** No match starts after the last match the scan reports. */
  lemma {:induction false} ScanTail(s: string, from: nat, matcher: Matcher)
    requires from <= |s| && ScanFrom(s, from, matcher) != []
    ensures var ds := ScanFrom(s, from, matcher); NoMatchIn(s, End(ds[|ds| - 1]), |s|, matcher)
    decreases |s| - from
  {
    ScanStep(s, from, matcher);
    var ds := ScanFrom(s, from, matcher);
    if MatchAt(s, from, matcher).Some? {
      var n := MatchAt(s, from, matcher).value.length;
      var rest := ScanFrom(s, from + n, matcher);
      if rest == [] {
        ScanLead(s, from + n, matcher);
        assert End(ds[|ds| - 1]) == from + n;
        assert NoMatchIn(s, from + n, |s|, matcher);
      } else {
        ScanTail(s, from + n, matcher);
        assert ds[|ds| - 1] == rest[|rest| - 1];
        assert NoMatchIn(s, End(rest[|rest| - 1]), |s|, matcher);
      }
    } else {
      ScanTail(s, from + 1, matcher);
      assert NoMatchIn(s, End(ds[|ds| - 1]), |s|, matcher);
    }
  }

  /** No match starts between two consecutive matches the scan reports. */
  lemma {:induction false} ScanGaps(s: string, from: nat, matcher: Matcher)
    requires from <= |s|
    ensures var ds := ScanFrom(s, from, matcher);
      forall k :: 0 <= k < |ds| - 1 ==> NoMatchIn(s, End(ds[k]), ds[k + 1].start, matcher)
    decreases |s| - from
  {
    if from < |s| {
      ScanStep(s, from, matcher);
      var ds := ScanFrom(s, from, matcher);
      if MatchAt(s, from, matcher).Some? {
        var n := MatchAt(s, from, matcher).value.length;
        var rest := ScanFrom(s, from + n, matcher);
        ScanGaps(s, from + n, matcher);
        ScanLead(s, from + n, matcher);
        forall k | 0 <= k < |ds| - 1
          ensures NoMatchIn(s, End(ds[k]), ds[k + 1].start, matcher)
        {
          assert ds[k + 1] == rest[k];
          if k > 0 {
            assert ds[k] == rest[k - 1];
          } else {
            assert End(ds[0]) == from + n;
          }
        }
      } else {
        ScanGaps(s, from + 1, matcher);
      }
    }
  }

  /** The scan misses nothing: no match starts before the first match it
      reports, between two consecutive ones, or after the last. */
  lemma ScanComplete(s: string, from: nat, matcher: Matcher)
    requires from <= |s|
    ensures var ds := ScanFrom(s, from, matcher);
      && (ds == [] ==> NoMatchIn(s, from, |s|, matcher))
      && (ds != [] ==> NoMatchIn(s, from, ds[0].start, matcher) && NoMatchIn(s, End(ds[|ds| - 1]), |s|, matcher))
      && (forall k :: 0 <= k < |ds| - 1 ==> NoMatchIn(s, End(ds[k]), ds[k + 1].start, matcher))
  {
    ScanLead(s, from, matcher);
    if ScanFrom(s, from, matcher) != [] {
      ScanTail(s, from, matcher);
    }
    ScanGaps(s, from, matcher);
  }
}
