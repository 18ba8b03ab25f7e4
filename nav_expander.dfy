/** The navigation expander: every `<nav route="R"/>` directive of a page is
    replaced by the links of the markdown files in the route's directory. */
module NavExpander {
  import opened Wrappers
  import opened Strings
  import opened MatchAll
  import opened NavDirective
  import opened NavListing

  /** What a directive becomes when its directory cannot be listed. */
  const NavError := "Error loading navigation"

  /** The text that replaces a directive for `route`. `listDir(route)` is the
      listing of the directory `content/<route>`, `None` when reading it fails. */
  function Replacement(route: string, rootUrl: string, listDir: string -> Option<seq<string>>): string {
    match listDir(route)
    case None => NavError
    case Some(files) => NavLinks(rootUrl, route, files)
  }

  /** The loop from the directive `ms[0]` on, `result` being the text so far:
      each directive, in order, replaces the first remaining occurrence of its
      matched text in the running result. */
  function ExpandFrom(result: string, ms: seq<Found>, rootUrl: string,
                      listDir: string -> Option<seq<string>>): string
    decreases |ms|
  {
    if ms == [] then result
    else
      ExpandFrom(ReplaceFirst(result, ms[0].full, Replacement(ms[0].capture, rootUrl, listDir)),
                 ms[1..], rootUrl, listDir)
  }

  /** The expansion of a page: the loop over the directives the global scan
      finds in the original page. */
  function Expand(content: string, rootUrl: string, listDir: string -> Option<seq<string>>): string {
    ExpandFrom(content, Directives(content), rootUrl, listDir)
  }

  /** `processNavTags`: the matches are taken from the original page, and a
      running `result` is rewritten once per match. */
  method ProcessNavTags(content: string, rootUrl: string, listDir: string -> Option<seq<string>>)
    returns (result: string)
    ensures result == Expand(content, rootUrl, listDir)
    ensures NoMatchIn(content, 0, |content|, MatchPrefix) ==> result == content
  {
    var matches := Directives(content);
    result := content;
    for k := 0 to |matches|
      invariant ExpandFrom(result, matches[k..], rootUrl, listDir) == Expand(content, rootUrl, listDir)
    {
      var d := matches[k];
      ExpandStep(result, matches[k..], rootUrl, listDir);
      assert matches[k..][0] == d && matches[k..][1..] == matches[k + 1..];
      match listDir(d.capture) {
        case Some(files) =>
          var links := NavLinks(rootUrl, d.capture, files);
          result := ReplaceFirst(result, d.full, links);
        case None =>
          result := ReplaceFirst(result, d.full, NavError);
      }
    }
    assert matches[|matches|..] == [];
    DirectivesEmpty(content);
  }

  /** One turn of the loop: the first directive's replacement, then the rest. */
  lemma ExpandStep(result: string, ms: seq<Found>, rootUrl: string, listDir: string -> Option<seq<string>>)
    requires ms != []
    ensures ExpandFrom(result, ms, rootUrl, listDir)
            == ExpandFrom(ReplaceFirst(result, ms[0].full, Replacement(ms[0].capture, rootUrl, listDir)),
                          ms[1..], rootUrl, listDir)
  {
  }

  /** The first directive is replaced where it stands, and the loop goes on
      with the remaining directives. */
  lemma FirstDirectiveInPlace(content: string, rootUrl: string, listDir: string -> Option<seq<string>>)
    requires Directives(content) != []
    ensures var ds := Directives(content);
      Expand(content, rootUrl, listDir)
      == ExpandFrom(content[..ds[0].start] + Replacement(ds[0].capture, rootUrl, listDir) + content[End(ds[0])..],
                    ds[1..], rootUrl, listDir)
  {
    var ds := Directives(content);
    var d := ds[0];
    FirstDirectiveIsFirstOccurrence(content);
    var r := Replacement(d.capture, rootUrl, listDir);
    assert ReplaceFirst(content, d.full, r) == content[..d.start] + r + content[End(d)..];
  }

  /** A failed listing is isolated: its directive becomes exactly the error
      text, and the remaining directives are still processed. */
  lemma FailedListingIsolated(content: string, rootUrl: string, listDir: string -> Option<seq<string>>)
    requires Directives(content) != [] && listDir(Directives(content)[0].capture).None?
    ensures var ds := Directives(content);
      Expand(content, rootUrl, listDir)
      == ExpandFrom(content[..ds[0].start] + NavError + content[End(ds[0])..], ds[1..], rootUrl, listDir)
  {
    FirstDirectiveInPlace(content, rootUrl, listDir);
  }

  /** A page with a single directive: the page around it is kept, and the
      directive becomes its replacement. */
  lemma SingleDirective(content: string, rootUrl: string, listDir: string -> Option<seq<string>>)
    requires |Directives(content)| == 1
    ensures var d := Directives(content)[0];
      Expand(content, rootUrl, listDir)
      == content[..d.start] + Replacement(d.capture, rootUrl, listDir) + content[End(d)..]
  {
    FirstDirectiveInPlace(content, rootUrl, listDir);
  }

  /** A page with a self-closing directive for `r`, a space, and a directive
      for `a` written without the slash. */
  const SelfClosingR := "<nav route=\"r\"/>"
  const OpenTagA := "<nav route=\"a\">"

  /** The directive for `r` matches at the front of the page. */
  lemma ExampleMatchAtStart()
    ensures MatchAt(SelfClosingR + " " + OpenTagA, 0, MatchPrefix) == Some(Match(16, "r"))
  {
    var s := SelfClosingR + " " + OpenTagA;
    assert WellFormed(" ", "r", "") by {
      assert IsRegexSpace(' ');
    }
    assert DirectiveText(" ", "r", "", true) == SelfClosingR;
    MatchComplete(" ", "r", "", true, " " + OpenTagA);
    MatchAtPrefix(s, 0);
    assert s[0..] == SelfClosingR + (" " + OpenTagA);
  }

  /** Nothing matches at the space between the two directives. */
  lemma ExampleNoMatchAtSpace()
    ensures MatchAt(SelfClosingR + " " + OpenTagA, 16, MatchPrefix).None?
  {
    var s := SelfClosingR + " " + OpenTagA;
    MatchAtPrefix(s, 16);
    assert s[16..][0] == ' ';
  }

  /** The directive for `a` matches at 17 and runs to the end of the page. */
  lemma ExampleMatchAtEnd()
    ensures MatchAt(SelfClosingR + " " + OpenTagA, 17, MatchPrefix) == Some(Match(15, "a"))
  {
    var s := SelfClosingR + " " + OpenTagA;
    assert WellFormed(" ", "a", "") by {
      assert IsRegexSpace(' ');
    }
    assert DirectiveText(" ", "a", "", false) + "" == OpenTagA;
    MatchComplete(" ", "a", "", false, "");
    MatchAtPrefix(s, 17);
    assert s[17..] == OpenTagA;
  }

  /** The scan finds both directives of `SelfClosingR + " " + OpenTagA`, at
      0 and at 17. */
  lemma TwoDirectivesExample()
    ensures Directives(SelfClosingR + " " + OpenTagA) == [Found(0, SelfClosingR, "r"), Found(17, OpenTagA, "a")]
  {
    var s := SelfClosingR + " " + OpenTagA;
    assert |s| == 32;
    ExampleMatchAtStart();
    ScanStep(s, 0, MatchPrefix);
    assert s[0..16] == SelfClosingR;
    ExampleNoMatchAtSpace();
    ScanStep(s, 16, MatchPrefix);
    ExampleMatchAtEnd();
    ScanStep(s, 17, MatchPrefix);
    assert s[17..32] == OpenTagA;
  }

  /** The one link of the listing of `r` in the example below, followed by
      its blank line. */
  function ExampleLinks(rootUrl: string): string {
    "[" + OpenTagA + "](" + rootUrl + "/" + "r" + "/" + OpenTagA + ")" + "\n\n"
  }

  /** The characters of the directive for `a` that the link code looks at. */
  lemma ExampleText()
    ensures |OpenTagA| == 15 && OpenTagA[0] == '<' && '.' !in OpenTagA && '-' !in OpenTagA
  {
  }

  /** The listing of `r`, one file named after the directive for `a`, gives
      one link that shows that directive's text twice. */
  lemma ExampleReplacement(rootUrl: string, listDir: string -> Option<seq<string>>)
    requires listDir("r") == Some([OpenTagA + MarkdownExtension])
    ensures Replacement("r", rootUrl, listDir) == ExampleLinks(rootUrl)
  {
    var file := OpenTagA + MarkdownExtension;
    ExampleText();
    EntryNameWithoutDot(OpenTagA);
    TitleUnchanged(OpenTagA);
    assert LinkLine(rootUrl, "r", file) + "\n\n" == ExampleLinks(rootUrl);
    assert EndsWith(file, MarkdownExtension);
    NavLinksSingle(rootUrl, "r", file);
  }

  /** The first link regrouped around its first copy of `x`. */
  lemma Regroup(x: string, u: string)
    ensures "[" + x + "](" + u + "/" + "r" + "/" + x + ")" + "\n\n" + " " + x
            == "[" + x + ("](" + u + "/r/" + x + ")\n\n " + x)
  {
  }

  /** The first turn of the loop replaces the directive for `r` where it
      stands. */
  lemma ExampleFirstTurn(rootUrl: string)
    ensures ReplaceFirst(SelfClosingR + " " + OpenTagA, SelfClosingR, ExampleLinks(rootUrl))
            == ExampleLinks(rootUrl) + " " + OpenTagA
  {
    var links := ExampleLinks(rootUrl);
    ReplaceFirstAfter("", SelfClosingR, " " + OpenTagA, links);
    assert "" + SelfClosingR + (" " + OpenTagA) == SelfClosingR + " " + OpenTagA;
    assert "" + links + (" " + OpenTagA) == links + " " + OpenTagA;
  }

  /** The second turn finds the text of the directive for `a` first inside
      the link title, at index 1. */
  lemma ExampleSecondTurn(rootUrl: string)
    ensures ReplaceFirst(ExampleLinks(rootUrl) + " " + OpenTagA, OpenTagA, NavError)
            == "[" + NavError + ("](" + rootUrl + "/r/" + OpenTagA + ")\n\n " + OpenTagA)
  {
    var tail := "](" + rootUrl + "/r/" + OpenTagA + ")\n\n " + OpenTagA;
    Regroup(OpenTagA, rootUrl);
    ExampleText();
    assert !OccursAt("[" + OpenTagA + tail, OpenTagA, 0) by {
      assert ("[" + OpenTagA + tail)[0] != OpenTagA[0];
    }
    ReplaceFirstAfter("[", OpenTagA, tail, NavError);
  }

  /** A later directive is not always replaced where it stands. The listing of
      `r` holds one file whose name is the text of the directive for `a`, so
      the first replacement writes that text into its link. The loop then
      replaces that copy, inside the link title, with the error text of `a`'s
      failed listing, and the real directive for `a` stays at the end of the
      page. */
  lemma LaterDirectiveReplacedElsewhere(rootUrl: string, listDir: string -> Option<seq<string>>)
    requires listDir("r") == Some([OpenTagA + MarkdownExtension]) && listDir("a").None?
    ensures Expand(SelfClosingR + " " + OpenTagA, rootUrl, listDir)
            == "[" + NavError + ("](" + rootUrl + "/r/" + OpenTagA + ")\n\n " + OpenTagA)
  {
    var page := SelfClosingR + " " + OpenTagA;
    var links := ExampleLinks(rootUrl);
    TwoDirectivesExample();
    var ds := Directives(page);
    var rest := [Found(17, OpenTagA, "a")];
    assert ds[0] == Found(0, SelfClosingR, "r") && ds[1..] == rest;
    ExampleReplacement(rootUrl, listDir);
    ExampleFirstTurn(rootUrl);
    ExampleSecondTurn(rootUrl);
    ExpandStep(page, ds, rootUrl, listDir);
    ExpandStep(links + " " + OpenTagA, rest, rootUrl, listDir);
    assert rest[1..] == [];
  }
}
