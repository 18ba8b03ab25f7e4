/** The markdown that replaces one navigation directive: one link line per
    markdown file of the route's directory, in listing order. */
module NavListing {
  import opened Strings

  const MarkdownExtension := ".md"

  /** `file.replace(".md", "")`: the FIRST `.md` in the entry is removed,
      wherever it is, not necessarily the extension at the end. */
  function EntryName(file: string): (name: string)
    ensures forall k: nat :: IsFirstOccurrence(file, MarkdownExtension, k) ==>
      name == file[..k] + file[k + |MarkdownExtension|..]
    ensures (forall k: nat :: !OccursAt(file, MarkdownExtension, k)) ==> name == file
  {
    ReplaceFirst(file, MarkdownExtension, "")
  }

  /** For an entry whose only `.md` is its extension, the name is the entry
      without it, and putting the extension back gives the entry again. */
  lemma EntryNameOfMarkdownFile(file: string)
    requires EndsWith(file, MarkdownExtension)
    requires forall k: nat :: k < |file| - |MarkdownExtension| ==> !OccursAt(file, MarkdownExtension, k)
    ensures EntryName(file) == file[..|file| - |MarkdownExtension|]
    ensures EntryName(file) + MarkdownExtension == file
  {
    var k := |file| - |MarkdownExtension|;
    assert IsFirstOccurrence(file, MarkdownExtension, k);
    assert file[k + |MarkdownExtension|..] == [];
    assert file[..k] + file[k..] == file;
  }

  /** An inner `.md` is removed instead of the extension. */
  lemma InnerExtensionExample()
    ensures EntryName("x.mdfoo.md") == "xfoo.md"
  {
    var file := "x.mdfoo.md";
    assert !OccursAt(file, MarkdownExtension, 0) by {
      assert file[0] != MarkdownExtension[0];
    }
    assert IsFirstOccurrence(file, MarkdownExtension, 1);
    assert file[..1] + file[4..] == "xfoo.md";
  }

  /** `name.charAt(0).toUpperCase() + name.slice(1).replace(/-/g, " ")`. */
  function Title(name: string): (t: string)
    ensures |t| == |name|
    ensures |name| > 0 ==> t[0] == UpperCase(name[0])
    ensures forall i :: 1 <= i < |name| ==> t[i] == (if name[i] == '-' then ' ' else name[i])
  {
    if name == [] then "" else [UpperCase(name[0])] + ReplaceChar(name[1..], '-', ' ')
  }

  /** A name without `-` that does not start with a lower-case letter is its
      own title. */
  lemma TitleUnchanged(name: string)
    requires '-' !in name && (name != [] ==> !('a' <= name[0] <= 'z'))
    ensures Title(name) == name
  {
    var t := Title(name);
    forall i | 0 <= i < |name|
      ensures t[i] == name[i]
    {
      assert name[i] in name;
    }
  }

  /** The entry `name.md`, for a name without any `.`, is named `name`. */
  lemma EntryNameWithoutDot(name: string)
    requires '.' !in name
    ensures EntryName(name + MarkdownExtension) == name
  {
    var file := name + MarkdownExtension;
    forall k: nat | k < |name|
      ensures !OccursAt(file, MarkdownExtension, k)
    {
      assert file[k] == name[k] && name[k] in name;
      assert file[k..k + 3][0] == file[k];
    }
    EntryNameOfMarkdownFile(file);
    assert file[..|name|] == name;
  }

  /** `[title](rootUrl/route/name)` for one directory entry. */
  function LinkLine(rootUrl: string, route: string, file: string): string {
    var name := EntryName(file);
    "[" + Title(name) + "](" + rootUrl + "/" + route + "/" + name + ")"
  }

  /** `files.filter((file) => file.endsWith(".md"))`. */
  function KeepMarkdown(files: seq<string>): (kept: seq<string>)
    ensures forall f :: f in kept <==> f in files && EndsWith(f, MarkdownExtension)
    ensures |kept| <= |files|
  {
    if files == [] then []
    else
      (if EndsWith(files[0], MarkdownExtension) then [files[0]] else [])
      + KeepMarkdown(files[1..])
  }

  /** The filter keeps the listing order: filtering distributes over
      concatenation. */
  lemma {:induction false} KeepMarkdownAppend(a: seq<string>, b: seq<string>)
    ensures KeepMarkdown(a + b) == KeepMarkdown(a) + KeepMarkdown(b)
  {
    if a == [] {
      assert a + b == b;
    } else {
      assert (a + b)[0] == a[0] && (a + b)[1..] == a[1..] + b;
      KeepMarkdownAppend(a[1..], b);
    }
  }

  /** The lines of one listing: `.map` to the link, then `.map` to the link
      followed by a blank line; one line per kept entry, in order. */
  function Lines(rootUrl: string, route: string, kept: seq<string>): (lines: seq<string>)
    ensures |lines| == |kept|
    ensures forall i :: 0 <= i < |kept| ==> lines[i] == LinkLine(rootUrl, route, kept[i]) + "\n\n"
  {
    seq(|kept|, i requires 0 <= i < |kept| => LinkLine(rootUrl, route, kept[i]) + "\n\n")
  }

  /** One line per entry, so the lines of two listings are the lines of each. */
  lemma LinesAppend(rootUrl: string, route: string, a: seq<string>, b: seq<string>)
    ensures Lines(rootUrl, route, a + b) == Lines(rootUrl, route, a) + Lines(rootUrl, route, b)
  {
    var l, la, lb := Lines(rootUrl, route, a + b), Lines(rootUrl, route, a), Lines(rootUrl, route, b);
    forall i | 0 <= i < |a + b|
      ensures l[i] == (la + lb)[i]
    {
      if i < |a| {
        assert (a + b)[i] == a[i];
      } else {
        assert (a + b)[i] == b[i - |a|];
      }
    }
  }

  /** The generated markdown for a route's listing: the lines of the markdown
      entries joined with no separator. */
  function NavLinks(rootUrl: string, route: string, files: seq<string>): string {
    Concat(Lines(rootUrl, route, KeepMarkdown(files)))
  }

  /** A single entry yields its link line and a blank line if it is a markdown
      file, and nothing otherwise. */
  lemma NavLinksSingle(rootUrl: string, route: string, file: string)
    ensures NavLinks(rootUrl, route, [file])
            == if EndsWith(file, MarkdownExtension) then LinkLine(rootUrl, route, file) + "\n\n" else ""
  {
    assert [file][1..] == [];
    var kept := KeepMarkdown([file]);
    var lines := Lines(rootUrl, route, kept);
    if EndsWith(file, MarkdownExtension) {
      assert kept == [file] + [];
      assert lines[1..] == [];
      assert Concat(lines) == lines[0] + "";
    } else {
      assert kept == [];
    }
  }

  /** The links of a listing are the links of its parts, in the same order:
      together with `NavLinksSingle`, one link per kept entry in listing order. */
  lemma {:induction false} NavLinksAppend(rootUrl: string, route: string, a: seq<string>, b: seq<string>)
    ensures NavLinks(rootUrl, route, a + b) == NavLinks(rootUrl, route, a) + NavLinks(rootUrl, route, b)
  {
    KeepMarkdownAppend(a, b);
    var ka, kb := KeepMarkdown(a), KeepMarkdown(b);
    LinesAppend(rootUrl, route, ka, kb);
    ConcatAppend(Lines(rootUrl, route, ka), Lines(rootUrl, route, kb));
  }

  /** The link line of a markdown file whose only `.md` is its extension. */
  lemma {:induction false} LinkLineOfMarkdownFile(rootUrl: string, route: string, file: string)
    requires EndsWith(file, MarkdownExtension)
    requires forall k: nat :: k < |file| - |MarkdownExtension| ==> !OccursAt(file, MarkdownExtension, k)
    ensures var name := file[..|file| - |MarkdownExtension|];
      LinkLine(rootUrl, route, file) == "[" + Title(name) + "](" + rootUrl + "/" + route + "/" + name + ")"
  {
    EntryNameOfMarkdownFile(file);
  }

  /** The links of each entry of a listing, taken one at a time. */
  function EntryLinks(rootUrl: string, route: string, files: seq<string>): seq<string> {
    Map(file => NavLinks(rootUrl, route, [file]), files)
  }

  /** The links of a listing are the links of its entries taken one at a
      time, joined in listing order; with `NavLinksSingle`, each markdown entry
      gives exactly its own link line and every other entry gives nothing. */
  lemma {:induction false} NavLinksPerEntry(rootUrl: string, route: string, files: seq<string>)
    ensures NavLinks(rootUrl, route, files) == Concat(EntryLinks(rootUrl, route, files))
  {
    if files == [] {
      assert KeepMarkdown(files) == [];
    } else {
      assert files == [files[0]] + files[1..];
      NavLinksAppend(rootUrl, route, [files[0]], files[1..]);
      NavLinksPerEntry(rootUrl, route, files[1..]);
      MapCons(file => NavLinks(rootUrl, route, [file]), files);
    }
  }
}
