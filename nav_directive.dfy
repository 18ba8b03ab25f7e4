/** The navigation directive `<nav route="R"/>` and the way the server finds
    it: the regular expression `/<nav\s+route="([^"]+)"\s*\/?>/g` run through
    `String.prototype.matchAll`.

    The pattern needs no backtracking: `\s+` is followed by `r`, `[^"]+` by `"`,
    and `\s*` by `/` or `>`, none of which the repetition before it can consume.
    So it is matched here by a deterministic automaton that reads one character
    at a time, with one phase per part of the pattern. */
module NavDirective {
  import opened Wrappers
  import opened MatchAll
  import opened Strings

  /** A character matched by `\s` in an ECMAScript regular expression: the
      WhiteSpace and LineTerminator code points of ECMAScript. */
  predicate IsRegexSpace(c: char) {
    || c == '\t' || c == '\n' || c == '\U{B}' || c == '\U{C}' || c == '\r'
    || c == ' ' || c == '\U{A0}' || c == '\U{1680}'
    || ('\U{2000}' <= c <= '\U{200A}')
    || c == '\U{2028}' || c == '\U{2029}' || c == '\U{202F}' || c == '\U{205F}'
    || c == '\U{3000}' || c == '\U{FEFF}'
  }

  const Keyword := "<nav"
  const RouteAttribute := "route=\""

  /** Where the matcher stands within `<nav\s+route="([^"]+)"\s*\/?>`. */
  datatype Phase =
    | InKeyword(k: nat)    // `k` characters of `<nav` read
    | FirstSpace           // `\s+`, nothing read yet
    | MoreSpace            // `\s+`, at least one read
    | InAttribute(k: nat)  // `k` characters of `route="` read
    | RouteStart           // `[^"]+`, nothing read yet
    | RouteRest            // `[^"]+`, at least one read
    | Trailing             // `\s*` after the closing quote
    | AfterSlash           // `\/` read, `>` expected

  datatype Transition = Next(phase: Phase) | Accept | Reject

  /** One character of the pattern. */
  function Step(p: Phase, c: char): Transition {
    match p
    case InKeyword(k) =>
      if k < |Keyword| && c == Keyword[k] then
        (if k + 1 == |Keyword| then Next(FirstSpace) else Next(InKeyword(k + 1)))
      else Reject
    case FirstSpace => if IsRegexSpace(c) then Next(MoreSpace) else Reject
    case MoreSpace =>
      if IsRegexSpace(c) then Next(MoreSpace)
      else if c == RouteAttribute[0] then Next(InAttribute(1))
      else Reject
    case InAttribute(k) =>
      if k < |RouteAttribute| && c == RouteAttribute[k] then
        (if k + 1 == |RouteAttribute| then Next(RouteStart) else Next(InAttribute(k + 1)))
      else Reject
    case RouteStart => if c != '"' then Next(RouteRest) else Reject
    case RouteRest => if c != '"' then Next(RouteRest) else Next(Trailing)
    case Trailing =>
      if IsRegexSpace(c) then Next(Trailing)
      else if c == '/' then Next(AfterSlash)
      else if c == '>' then Accept
      else Reject
    case AfterSlash => if c == '>' then Accept else Reject
  }

  /** Runs the automaton over `u` from index `i` in phase `p`, having captured
      `route` so far; the match ends at the first `>` the pattern accepts. */
  function Run(u: string, i: nat, p: Phase, route: string): (r: Option<Match>)
    requires i <= |u|
    ensures r.Some? ==> i < r.value.length <= |u|
    decreases |u| - i
  {
    if i == |u| then None
    else
      var c := u[i];
      var route' := if (p.RouteStart? || p.RouteRest?) && c != '"' then route + [c] else route;
      match Step(p, c)
      case Reject => None
      case Accept => Some(Match(i + 1, route))
      case Next(q) => Run(u, i + 1, q, route')
  }

  /** The match of the pattern anchored at the front of `u`, if there is one. */
  function MatchPrefix(u: string): (r: Option<Match>)
    ensures r.Some? ==> 0 < r.value.length <= |u|
  {
    Run(u, 0, InKeyword(0), "")
  }

  lemma {:induction false} RunLocal(u: string, w: string, i: nat, p: Phase, route: string)
    requires i <= |u| && i <= |w|
    requires Run(u, i, p, route).Some?
    requires Run(u, i, p, route).value.length <= |w|
    requires w[..Run(u, i, p, route).value.length] == u[..Run(u, i, p, route).value.length]
    ensures Run(w, i, p, route) == Run(u, i, p, route)
    decreases |u| - i
  {
    var n := Run(u, i, p, route).value.length;
    assert w[i] == w[..n][i] == u[..n][i] == u[i];
    var route' := if (p.RouteStart? || p.RouteRest?) && u[i] != '"' then route + [u[i]] else route;
    if Step(p, u[i]).Next? {
      RunLocal(u, w, i + 1, Step(p, u[i]).phase, route');
    }
  }

  /** A match depends only on the characters it spans. */
  lemma MatchLocal(u: string, w: string)
    requires MatchPrefix(u).Some?
    requires MatchPrefix(u).value.length <= |w|
    requires w[..MatchPrefix(u).value.length] == u[..MatchPrefix(u).value.length]
    ensures MatchPrefix(w) == MatchPrefix(u)
  {
    RunLocal(u, w, 0, InKeyword(0), "");
  }

  /** The text of a directive, written the way the grammar reads:
      `<nav`, whitespace, `route="`, the route, `"`, optional whitespace, an
      optional `/`, and `>`. */
  function DirectiveText(ws1: string, route: string, ws2: string, slash: bool): string {
    Keyword + ws1 + RouteAttribute + route + "\"" + ws2 + (if slash then "/" else "") + ">"
  }

  predicate AllSpaces(w: string) {
    forall k :: 0 <= k < |w| ==> IsRegexSpace(w[k])
  }

  predicate NoQuotes(w: string) {
    forall k :: 0 <= k < |w| ==> w[k] != '"'
  }

  /** The side conditions of the grammar: `\s+`, `[^"]+` and `\s*`. */
  predicate WellFormed(ws1: string, route: string, ws2: string) {
    ws1 != [] && AllSpaces(ws1) && route != [] && NoQuotes(route) && AllSpaces(ws2)
  }

  /** `InKeyword(k)` reads the rest of the keyword and reaches `FirstSpace`. */
  lemma {:induction false} KeywordSteps(u: string, i: nat, k: nat, route: string)
    requires k < |Keyword| && i + |Keyword| - k <= |u|
    requires u[i..i + |Keyword| - k] == Keyword[k..]
    ensures Run(u, i, InKeyword(k), route) == Run(u, i + |Keyword| - k, FirstSpace, route)
    decreases |Keyword| - k
  {
    assert u[i] == u[i..i + |Keyword| - k][0] == Keyword[k];
    if k + 1 < |Keyword| {
      assert u[i + 1..i + |Keyword| - k] == u[i..i + |Keyword| - k][1..];
      KeywordSteps(u, i + 1, k + 1, route);
    }
  }

  /** `InAttribute(k)` reads the rest of `route="` and reaches `RouteStart`. */
  lemma {:induction false} AttributeSteps(u: string, i: nat, k: nat, route: string)
    requires 0 < k < |RouteAttribute| && i + |RouteAttribute| - k <= |u|
    requires u[i..i + |RouteAttribute| - k] == RouteAttribute[k..]
    ensures Run(u, i, InAttribute(k), route) == Run(u, i + |RouteAttribute| - k, RouteStart, route)
    decreases |RouteAttribute| - k
  {
    assert u[i] == u[i..i + |RouteAttribute| - k][0] == RouteAttribute[k];
    if k + 1 < |RouteAttribute| {
      assert u[i + 1..i + |RouteAttribute| - k] == u[i..i + |RouteAttribute| - k][1..];
      AttributeSteps(u, i + 1, k + 1, route);
    }
  }

  /** `MoreSpace` and `Trailing` read any run of whitespace and stay put. */
  lemma {:induction false} SpaceSteps(u: string, i: nat, j: nat, p: Phase, route: string)
    requires p == MoreSpace || p == Trailing
    requires i <= j <= |u| && AllSpaces(u[i..j])
    ensures Run(u, i, p, route) == Run(u, j, p, route)
    decreases j - i
  {
    if i < j {
      assert IsRegexSpace(u[i..j][0]);
      assert u[i + 1..j] == u[i..j][1..];
      SpaceSteps(u, i + 1, j, p, route);
    }
  }

  /** `RouteRest` reads any run of non-quote characters and captures it. */
  lemma {:induction false} RouteSteps(u: string, i: nat, j: nat, route: string)
    requires i <= j <= |u| && NoQuotes(u[i..j])
    ensures Run(u, i, RouteRest, route) == Run(u, j, RouteRest, route + u[i..j])
    decreases j - i
  {
    if i < j {
      assert u[i..j][0] == u[i] != '"';
      assert u[i + 1..j] == u[i..j][1..];
      RouteSteps(u, i + 1, j, route + [u[i]]);
      assert route + [u[i]] + u[i + 1..j] == route + u[i..j];
    } else {
      assert route + u[i..j] == route;
    }
  }

  /** The automaton reads `<nav`, whitespace and `route="` up to the route. */
  lemma {:induction false} HeadSteps(u: string, a: nat)
    requires 5 <= a && a + 7 <= |u|
    requires u[..4] == Keyword && AllSpaces(u[4..a]) && u[a..a + 7] == RouteAttribute
    ensures Run(u, 0, InKeyword(0), "") == Run(u, a + 7, RouteStart, "")
  {
    KeywordSteps(u, 0, 0, "");
    assert Run(u, 4, FirstSpace, "") == Run(u, 5, MoreSpace, "") by {
      assert u[4] == u[4..a][0];
    }
    assert AllSpaces(u[5..a]) by {
      assert u[5..a] == u[4..a][1..];
    }
    SpaceSteps(u, 5, a, MoreSpace, "");
    assert Run(u, a, MoreSpace, "") == Run(u, a + 1, InAttribute(1), "") by {
      assert u[a] == u[a..a + 7][0] == 'r';
    }
    assert u[a + 1..a + 7] == RouteAttribute[1..] by {
      assert u[a + 1..a + 7] == u[a..a + 7][1..];
    }
    AttributeSteps(u, a + 1, 1, "");
  }

  /** From the route on, the automaton captures the route, reads the closing
      quote, optional whitespace, an optional `/` and accepts at `>`. */
  lemma {:induction false} TailSteps(u: string, s: nat, b: nat, c: nat, slash: bool)
    requires s < b && b + 1 <= c && c + (if slash then 1 else 0) < |u|
    requires NoQuotes(u[s..b]) && u[b] == '"' && AllSpaces(u[b + 1..c])
    requires if slash then u[c] == '/' && u[c + 1] == '>' else u[c] == '>'
    ensures Run(u, s, RouteStart, "") == Some(Match(c + (if slash then 2 else 1), u[s..b]))
  {
    assert Run(u, s, RouteStart, "") == Run(u, s + 1, RouteRest, [u[s]]) by {
      assert u[s] == u[s..b][0] != '"';
      assert "" + [u[s]] == [u[s]];
    }
    assert NoQuotes(u[s + 1..b]) && [u[s]] + u[s + 1..b] == u[s..b] by {
      assert u[s + 1..b] == u[s..b][1..];
    }
    RouteSteps(u, s + 1, b, [u[s]]);
    var route := u[s..b];
    assert Run(u, b, RouteRest, route) == Run(u, b + 1, Trailing, route);
    SpaceSteps(u, b + 1, c, Trailing, route);
    if slash {
      assert Run(u, c, Trailing, route) == Run(u, c + 1, AfterSlash, route);
    }
  }

  /** The keyword, the first whitespace and the attribute of a directive
      text followed by anything, where the automaton looks for them. */
  lemma HeadLayout(ws1: string, route: string, ws2: string, slash: bool, rest: string)
    requires WellFormed(ws1, route, ws2)
    ensures var u := DirectiveText(ws1, route, ws2, slash) + rest;
      var a := 4 + |ws1|;
      && 5 <= a && a + 7 <= |u|
      && u[..4] == Keyword && AllSpaces(u[4..a]) && u[a..a + 7] == RouteAttribute
  {
    var u := DirectiveText(ws1, route, ws2, slash) + rest;
    assert u == Keyword + ws1 + RouteAttribute + (route + "\"" + ws2 + (if slash then "/" else "") + ">" + rest);
    assert u[4..4 + |ws1|] == ws1;
  }

  /** The route, the closing quote, the second whitespace and the end of the
      tag of a directive text followed by anything, where the automaton looks
      for them. */
  lemma TailLayout(ws1: string, route: string, ws2: string, slash: bool, rest: string)
    requires WellFormed(ws1, route, ws2)
    ensures var u := DirectiveText(ws1, route, ws2, slash) + rest;
      var s := 11 + |ws1|;
      var b := s + |route|;
      var c := b + 1 + |ws2|;
      && s < b && b + 1 <= c && c + (if slash then 1 else 0) < |u|
      && u[s..b] == route && NoQuotes(u[s..b]) && u[b] == '"' && AllSpaces(u[b + 1..c])
      && (if slash then u[c] == '/' && u[c + 1] == '>' else u[c] == '>')
      && |DirectiveText(ws1, route, ws2, slash)| == c + (if slash then 2 else 1)
  {
    var head := Keyword + ws1 + RouteAttribute;
    var u := DirectiveText(ws1, route, ws2, slash) + rest;
    var v := route + "\"" + ws2 + (if slash then "/>" else ">") + rest;
    assert u == head + v;
    assert v[..|route|] == route && v[|route|] == '"' && v[|route| + 1..|route| + 1 + |ws2|] == ws2;
  }

  /** Every text the grammar describes is matched, whatever follows it: the
      match spans exactly that text and captures its route. */
  lemma {:induction false} MatchComplete(ws1: string, route: string, ws2: string, slash: bool, rest: string)
    requires WellFormed(ws1, route, ws2)
    ensures MatchPrefix(DirectiveText(ws1, route, ws2, slash) + rest)
            == Some(Match(|DirectiveText(ws1, route, ws2, slash)|, route))
  {
    var u := DirectiveText(ws1, route, ws2, slash) + rest;
    var a := 4 + |ws1|;
    HeadLayout(ws1, route, ws2, slash, rest);
    HeadSteps(u, a);
    TailLayout(ws1, route, ws2, slash, rest);
    TailSteps(u, a + 7, a + 7 + |route|, a + 8 + |route| + |ws2|, slash);
  }

  /** The self-closing spelling of the directive. */
  lemma SelfClosingExample()
    ensures MatchPrefix("<nav route=\"guides\"/> and more") == Some(Match(21, "guides"))
  {
    assert WellFormed(" ", "guides", "") by {
      assert IsRegexSpace(' ');
    }
    var d := DirectiveText(" ", "guides", "", true);
    assert d == "<nav route=\"guides\"/>";
    assert "<nav route=\"guides\"/> and more" == d + " and more";
    MatchComplete(" ", "guides", "", true, " and more");
  }

  /** The spelling without the slash, with mixed whitespace. */
  lemma OpenTagExample()
    ensures MatchPrefix("<nav \t route=\"a/b\" >") == Some(Match(20, "a/b"))
  {
    assert WellFormed(" \t ", "a/b", " ") by {
      assert IsRegexSpace(' ') && IsRegexSpace('\t');
    }
    assert "<nav \t route=\"a/b\" >" == DirectiveText(" \t ", "a/b", " ", false) + "";
    MatchComplete(" \t ", "a/b", " ", false, "");
  }

  /** Conversely, a run that gets past `InKeyword(k)` has read the rest of
      the keyword. */
  lemma {:induction false} KeywordSound(u: string, i: nat, k: nat, route: string)
    requires k < |Keyword| && i <= |u|
    requires Run(u, i, InKeyword(k), route).Some?
    ensures i + |Keyword| - k <= |u| && u[i..i + |Keyword| - k] == Keyword[k..]
    decreases |Keyword| - k
  {
    assert u[i] == Keyword[k];
    if k + 1 < |Keyword| {
      KeywordSound(u, i + 1, k + 1, route);
      assert u[i..i + |Keyword| - k] == [u[i]] + u[i + 1..i + |Keyword| - k];
    }
  }

  /** A run that gets past `InAttribute(k)` has read the rest of `route="`. */
  lemma {:induction false} AttributeSound(u: string, i: nat, k: nat, route: string)
    requires 0 < k < |RouteAttribute| && i <= |u|
    requires Run(u, i, InAttribute(k), route).Some?
    ensures i + |RouteAttribute| - k <= |u| && u[i..i + |RouteAttribute| - k] == RouteAttribute[k..]
    decreases |RouteAttribute| - k
  {
    assert u[i] == RouteAttribute[k];
    if k + 1 < |RouteAttribute| {
      AttributeSound(u, i + 1, k + 1, route);
      assert u[i..i + |RouteAttribute| - k] == [u[i]] + u[i + 1..i + |RouteAttribute| - k];
    }
  }

  /** A successful run in `MoreSpace` or `Trailing` reads whitespace up to
      some index `j` holding a character that is not whitespace. */
  lemma {:induction false} SpaceRun(u: string, i: nat, p: Phase, route: string) returns (j: nat)
    requires p == MoreSpace || p == Trailing
    requires i <= |u| && Run(u, i, p, route).Some?
    ensures i <= j < |u| && AllSpaces(u[i..j]) && !IsRegexSpace(u[j])
    ensures Run(u, i, p, route) == Run(u, j, p, route)
    decreases |u| - i
  {
    if IsRegexSpace(u[i]) {
      j := SpaceRun(u, i + 1, p, route);
      assert u[i..j] == [u[i]] + u[i + 1..j];
    } else {
      j := i;
    }
  }

  /** A successful run in `RouteRest` captures non-quote characters up to
      some index `j` holding the closing quote. */
  lemma {:induction false} RouteRun(u: string, i: nat, route: string) returns (j: nat)
    requires i <= |u| && Run(u, i, RouteRest, route).Some?
    ensures i <= j < |u| && NoQuotes(u[i..j]) && u[j] == '"'
    ensures Run(u, i, RouteRest, route) == Run(u, j, RouteRest, route + u[i..j])
    decreases |u| - i
  {
    if u[i] != '"' {
      j := RouteRun(u, i + 1, route + [u[i]]);
      assert u[i..j] == [u[i]] + u[i + 1..j];
      assert route + [u[i]] + u[i + 1..j] == route + u[i..j];
    } else {
      j := i;
      assert route + u[i..j] == route;
    }
  }

  /** A successful run from the start has read `<nav`, whitespace up to `a`
      and `route="`. */
  lemma {:induction false} HeadSound(u: string) returns (a: nat)
    requires MatchPrefix(u).Some?
    ensures 5 <= a && a + 7 <= |u|
    ensures u[..4] == Keyword && AllSpaces(u[4..a]) && u[a..a + 7] == RouteAttribute
  {
    KeywordSound(u, 0, 0, "");
    KeywordSteps(u, 0, 0, "");
    assert IsRegexSpace(u[4]);
    a := SpaceRun(u, 5, MoreSpace, "");
    assert u[4..a] == [u[4]] + u[5..a];
    assert u[a] == 'r';
    AttributeSound(u, a + 1, 1, "");
    assert u[a..a + 7] == [u[a]] + u[a + 1..a + 7];
  }

  /** A successful run from the route on captures a non-empty route without
      quotes up to the quote at `b`, then whitespace up to `c`, then `/>` or
      `>`. */
  lemma {:induction false} TailSound(u: string, s: nat) returns (b: nat, c: nat, slash: bool)
    requires s <= |u| && Run(u, s, RouteStart, "").Some?
    ensures s < b && b + 1 <= c && c + (if slash then 1 else 0) < |u|
    ensures NoQuotes(u[s..b]) && u[b] == '"' && AllSpaces(u[b + 1..c])
    ensures if slash then u[c] == '/' && u[c + 1] == '>' else u[c] == '>'
  {
    assert u[s] != '"';
    assert Run(u, s, RouteStart, "") == Run(u, s + 1, RouteRest, [u[s]]) by {
      assert "" + [u[s]] == [u[s]];
    }
    b := RouteRun(u, s + 1, [u[s]]);
    assert NoQuotes(u[s..b]) by {
      assert u[s..b] == [u[s]] + u[s + 1..b];
    }
    var route := [u[s]] + u[s + 1..b];
    c := SpaceRun(u, b + 1, Trailing, route);
    slash := u[c] == '/';
    if slash {
      assert Run(u, c + 1, AfterSlash, route).Some?;
    }
  }

  /** The text read by a successful run, cut at the indices the run passed. */
  lemma {:induction false} Assemble(u: string, a: nat, b: nat, c: nat, slash: bool)
    requires 5 <= a && a + 7 < b && b + 1 <= c && c + (if slash then 1 else 0) < |u|
    requires u[..4] == Keyword && u[a..a + 7] == RouteAttribute && u[b] == '"'
    requires if slash then u[c] == '/' && u[c + 1] == '>' else u[c] == '>'
    ensures var n := c + (if slash then 2 else 1);
      u[..n] == DirectiveText(u[4..a], u[a + 7..b], u[b + 1..c], slash)
  {
    var n := c + (if slash then 2 else 1);
    var ws1, route, ws2 := u[4..a], u[a + 7..b], u[b + 1..c];
    assert u[..a] == Keyword + ws1 by { assert u[..a] == u[..4] + u[4..a]; }
    assert u[..a + 7] == Keyword + ws1 + RouteAttribute by { assert u[..a + 7] == u[..a] + u[a..a + 7]; }
    assert u[..b] == Keyword + ws1 + RouteAttribute + route by { assert u[..b] == u[..a + 7] + u[a + 7..b]; }
    assert u[..b + 1] == Keyword + ws1 + RouteAttribute + route + "\"" by { assert u[..b + 1] == u[..b] + [u[b]]; }
    assert u[..c] == Keyword + ws1 + RouteAttribute + route + "\"" + ws2 by { assert u[..c] == u[..b + 1] + u[b + 1..c]; }
    assert u[..n] == u[..c] + (if slash then "/" else "") + ">" by {
      assert u[c..n] == (if slash then "/" else "") + ">";
      assert u[..n] == u[..c] + u[c..n];
    }
  }

  /** Every match is the text of a well-formed directive, and captures its
      route: with `MatchComplete`, the automaton accepts exactly the
      grammar's texts. */
  lemma {:induction false} MatchSound(u: string) returns (ws1: string, route: string, ws2: string, slash: bool)
    requires MatchPrefix(u).Some?
    ensures WellFormed(ws1, route, ws2)
    ensures |DirectiveText(ws1, route, ws2, slash)| <= |u|
    ensures u[..|DirectiveText(ws1, route, ws2, slash)|] == DirectiveText(ws1, route, ws2, slash)
    ensures MatchPrefix(u) == Some(Match(|DirectiveText(ws1, route, ws2, slash)|, route))
  {
    var a := HeadSound(u);
    HeadSteps(u, a);
    var b, c, sl := TailSound(u, a + 7);
    ws1, route, ws2, slash := u[4..a], u[a + 7..b], u[b + 1..c], sl;
    TailSteps(u, a + 7, b, c, slash);
    Assemble(u, a, b, c, slash);
  }

  /** The scan sees the automaton's matches unchanged: they are never empty
      and never run past the end of the text. */
  lemma MatchAtPrefix(s: string, p: nat)
    requires p <= |s|
    ensures MatchAt(s, p, MatchPrefix) == MatchPrefix(s[p..])
  {
  }

  /** Every match of the pattern in `s`, in order, as the global scan finds them. */
  function Directives(s: string): (ds: seq<Found>)
    ensures forall k :: 0 <= k < |ds| ==> FoundIn(s, ds[k], MatchPrefix)
    ensures forall k :: 0 <= k < |ds| - 1 ==> End(ds[k]) <= ds[k + 1].start
  {
    ScanFound(s, 0, MatchPrefix);
    ScanOrdered(s, 0, MatchPrefix);
    ScanFrom(s, 0, MatchPrefix)
  }

  /** The scan reports nothing exactly when the pattern matches nowhere. */
  lemma DirectivesEmpty(s: string)
    ensures Directives(s) == [] <==> NoMatchIn(s, 0, |s|, MatchPrefix)
  {
    ScanComplete(s, 0, MatchPrefix);
    var ds := Directives(s);
    if ds != [] {
      assert MatchAt(s, ds[0].start, MatchPrefix).Some?;
    }
  }

  /** The text of the first directive occurs nowhere in the document before
      the directive itself: an earlier copy would have been an earlier match. */
  lemma FirstDirectiveIsFirstOccurrence(s: string)
    requires Directives(s) != []
    ensures IsFirstOccurrence(s, Directives(s)[0].full, Directives(s)[0].start)
  {
    var d := Directives(s)[0];
    ScanComplete(s, 0, MatchPrefix);
    assert FoundIn(s, d, MatchPrefix);
    forall j: nat | j < d.start
      ensures !OccursAt(s, d.full, j)
    {
      if OccursAt(s, d.full, j) {
        var u, w := s[d.start..], s[j..];
        MatchAtPrefix(s, d.start);
        MatchAtPrefix(s, j);
        assert u[..|d.full|] == d.full == w[..|d.full|];
        MatchLocal(u, w);
        assert false;
      }
    }
  }
}
