/** Converting one Keep note: choosing its title, naming its Markdown file,
    finding its content, running the checkbox pass, rendering, and composing
    the text that is written. The Markdown renderer is a parameter: a total
    function from a container to `Some(markdown)`, or `None` when it raises. */
module Converter {
  import opened Wrappers
  import opened PyStr
  import opened PyPath
  import opened Soup
  import opened Checklist
  import Sanitizer

  const MD_EXT := ".md"
  const FAILED := "[Content Conversion Failed]"

  type Renderer = seq<Node> -> Option<string>

  /** Which characters standard output can encode. Printing a text that
      holds any other character raises. */
  type Console = char -> bool

  /** Whether the console can encode every character of `s`. */
  predicate Printable(console: Console, s: string) {
    s == [] || (console(s[0]) && Printable(console, s[1..]))
  }

  /** A text prints exactly when each of its characters does. */
  lemma {:induction false} PrintableChars(console: Console, s: string)
    ensures Printable(console, s) <==> forall i :: 0 <= i < |s| ==> console(s[i])
  {
    if s != [] {
      PrintableChars(console, s[1..]);
      assert forall i :: 1 <= i < |s| ==> s[1..][i - 1] == s[i];
    }
  }

  /** A path whose basename does not print does not print either. */
  lemma UnprintablePath(console: Console, p: string)
    requires !Printable(console, Basename(p))
    ensures !Printable(console, p)
  {
    if Printable(console, p) {
      PrintableBasename(console, p);
    }
  }

  /** What a path prints, its basename prints too. */
  lemma PrintableBasename(console: Console, p: string)
    requires Printable(console, p)
    ensures Printable(console, Basename(p))
  {
    var b := Basename(p);
    PrintableChars(console, p);
    PrintableChars(console, b);
    assert forall i :: 0 <= i < |b| ==> b[i] == p[|p| - |b| + i];
  }

  /** The title: the title tag's stripped text when there is a tag, otherwise
      the stem of the file name; "Untitled Note" when that is empty. A tag
      with empty text goes straight to "Untitled Note": the file name is only
      consulted when there is no tag. */
  function Title(tag: Option<seq<string>>, baseName: string): (t: string)
    ensures t != []
  {
    var candidate := match tag
      case Some(strings) => GetText(strings)
      case None => Stem(baseName);
    if candidate == [] then Sanitizer.UNTITLED else candidate
  }

  /** The three ways a title is chosen. */
  lemma TitleRule(tag: Option<seq<string>>, baseName: string)
    ensures tag.Some? && GetText(tag.value) != [] ==> Title(tag, baseName) == GetText(tag.value)
    ensures tag.Some? && GetText(tag.value) == [] ==> Title(tag, baseName) == Sanitizer.UNTITLED
    ensures tag.None? && baseName != [] ==> Title(tag, baseName) == Stem(baseName)
    ensures tag.None? && baseName == [] ==> Title(tag, baseName) == Sanitizer.UNTITLED
  {
    StemEmpty(baseName);
  }

  /** When a title tag exists, the file name plays no part, even when the
      tag's text is empty. */
  lemma TitleIgnoresFileName(strings: seq<string>, name1: string, name2: string)
    ensures Title(Some(strings), name1) == Title(Some(strings), name2)
  {
  }

  /** A title taken from a tag never starts or ends with whitespace. */
  lemma TitleFromTagTrimmed(strings: seq<string>, baseName: string)
    ensures !IsSpace(Title(Some(strings), baseName)[0])
    ensures !IsSpace(Title(Some(strings), baseName)[|Title(Some(strings), baseName)| - 1])
  {
    var t := Title(Some(strings), baseName);
    if GetText(strings) == [] {
      assert t == Sanitizer.UNTITLED;
      assert t[0] == 'U' && t[|t| - 1] == 'e';
    }
  }

  /** Without a title tag, `n.html` is titled `n` (as `note42.html` gives
      `note42`) when `n` has a character other than a dot and no dot or
      separator ends up in the extension. */
  lemma TitleFromFileName(n: string)
    requires SEP !in n
    requires exists i :: 0 <= i < |n| && n[i] != EXTSEP
    ensures Title(None, n + ".html") == n
  {
    assert n + ".html" == n + [EXTSEP] + "html";
    StemOfExtension(n, "html");
    var i :| 0 <= i < |n| && n[i] != EXTSEP;
    assert n != [];
  }

  /** The Markdown file's path: the sanitised title with `.md`, joined onto
      the output directory. It lies directly inside that directory: the path
      is the directory, at most one separator, then that file name. */
  function OutputPath(outputDir: string, title: string): (p: string)
    ensures var name := Sanitizer.Sanitize(title) + MD_EXT;
      p == outputDir + name || p == outputDir + [SEP] + name
    ensures |p| >= |outputDir| && p[..|outputDir|] == outputDir
    ensures Basename(p) == Sanitizer.Sanitize(title) + MD_EXT
  {
    var name := Sanitizer.Sanitize(title) + MD_EXT;
    FileNameHasNoSeparator(title);
    JoinStaysInside(outputDir, name);
    BasenameOfJoin(outputDir, name);
    Join(outputDir, name)
  }

  /** The file name of a note holds no separator. */
  lemma FileNameHasNoSeparator(title: string)
    ensures SEP !in Sanitizer.Sanitize(title) + MD_EXT
  {
    var name := Sanitizer.Sanitize(title) + MD_EXT;
    forall i | 0 <= i < |name| ensures name[i] != SEP {
      if i < |Sanitizer.Sanitize(title)| {
        assert name[i] == Sanitizer.Sanitize(title)[i];
        assert !Sanitizer.IsForbidden(name[i]);
      } else {
        assert name[i] == MD_EXT[i - |Sanitizer.Sanitize(title)|];
      }
    }
  }

  /** The content container: the `note-content` div, else the `content` div. */
  function ContentContainer(doc: Document): Option<seq<Node>> {
    if doc.noteContent.Some? then doc.noteContent else doc.content
  }

  /** Whether the checkbox pass over `n` nodes runs to the end. */
  predicate Completes(n: nat, fault: Option<nat>) {
    fault.None? || fault.value >= n
  }

  /** The container as the checkbox pass leaves it. */
  function PassedTree(nodes: seq<Node>, fault: Option<nat>): seq<Node> {
    RewrittenPrefix(nodes, if Completes(|nodes|, fault) then |nodes| else fault.value)
  }

  /** The Markdown body. Without a container it is empty. Otherwise the first
      rendering happens only when the checkbox pass completes; when the pass
      raised, or the first rendering did, the container is rendered once
      more, still as the pass left it, and if that raises too the body is
      the failure marker. So the body is one rendering of the container as
      the pass left it, or the marker when that rendering raises. */
  function Body(container: Option<seq<Node>>, render: Renderer, fault: Option<nat>): (r: string)
    ensures container.None? ==> r == ""
    ensures container.Some? ==> r == render(PassedTree(container.value, fault)).GetOr(FAILED)
  {
    match container
    case None => ""
    case Some(nodes) =>
      var tree := PassedTree(nodes, fault);
      var first := if Completes(|nodes|, fault) then render(tree) else None;
      match first
      case Some(text) => text
      case None => render(tree).GetOr(FAILED)
  }

  /** What the body is, case by case: empty without a container; one
      rendering of the rewritten container when the pass completes (the
      retry renders the same tree, so it cannot succeed where the first
      attempt failed); a rendering of the partly rewritten container when the
      pass raised at `fault`; and the failure marker exactly when the
      rendering that counts raises. */
  lemma BodyRule(container: Option<seq<Node>>, render: Renderer, fault: Option<nat>)
    ensures container.None? ==> Body(container, render, fault) == ""
    ensures container.Some? && Completes(|container.value|, fault) ==>
              Body(container, render, fault) == render(Normalized(container.value)).GetOr(FAILED)
    ensures container.Some? && !Completes(|container.value|, fault) ==>
              Body(container, render, fault) == render(RewrittenPrefix(container.value, fault.value)).GetOr(FAILED)
    ensures container.Some? && render(PassedTree(container.value, fault)).None? ==>
              Body(container, render, fault) == FAILED
    ensures container.Some? && render(PassedTree(container.value, fault)).Some? ==>
              Body(container, render, fault) == render(PassedTree(container.value, fault)).value
  {
    if container.Some? {
      RewrittenPrefixComplete(container.value);
    }
  }

  /** The text written: a level-one heading with the unsanitised title, a
      blank line, then the body. */
  function Compose(title: string, body: string): (text: string)
    ensures |text| == |title| + |body| + 4
    ensures text[..2] == "# " && text[2..|title| + 2] == title
    ensures text[|title| + 2..|title| + 4] == "\n\n" && text[|title| + 4..] == body
  {
    "# " + title + "\n\n" + body
  }

  /** Reads a written note back into its title and body. */
  function SplitNote(text: string): (r: Option<(string, string)>)
    ensures r.Some? ==> text == Compose(r.value.0, r.value.1) && '\n' !in r.value.0
  {
    if |text| < 2 || text[..2] != "# " then None
    else
      var rest := text[2..];
      var k := Find(rest, '\n');
      if k < 0 || k + 1 >= |rest| || rest[k + 1] != '\n' then None
      else
        assert rest == rest[..k] + "\n\n" + rest[k + 2..];
        assert text == text[..2] + rest;
        Some((rest[..k], rest[k + 2..]))
  }

  /** A title without line breaks and any body are read back from the
      composed text. */
  lemma ComposeRoundTrip(title: string, body: string)
    requires '\n' !in title
    ensures SplitNote(Compose(title, body)) == Some((title, body))
  {
    var text := Compose(title, body);
    assert text[..2] == "# ";
    var rest := text[2..];
    assert rest == title + "\n\n" + body;
    assert forall j :: 0 <= j < |title| ==> rest[j] == title[j];
    assert rest[|title|] == '\n';
    assert Find(rest, '\n') == |title|;
    assert rest[|title| + 1] == '\n';
    assert rest[..|title|] == title;
    assert rest[|title| + 2..] == body;
  }

  /** What reading the HTML file gives: not found, unreadable (any other
      error while opening, decoding or parsing it), or a parsed note. */
  datatype Source = Missing | Unreadable | Parsed(doc: Document)

  /** The effect of converting one file: a Markdown file written, an error
      reported for the input path, or an exception that escapes the
      conversion because reporting an error raised again. */
  datatype Outcome =
    | Written(path: string, text: string)
    | NotFound(htmlPath: string)
    | Failed(htmlPath: string)
    | Raised(htmlPath: string)

  /** The conversion of one file, as a function of what reading it gives.
      Printing the file's name (line 39) is the first thing inside the `try`:
      when that raises, the handler prints the same name and raises again.
      A missing file is reported with its whole path, which may raise too.
      A file is written exactly when it parses and its name prints, and an
      exception escapes only for a path the console cannot print. */
  function ConvertNote(source: Source, htmlPath: string, outputDir: string,
                       render: Renderer, fault: Option<nat>, console: Console): (o: Outcome)
    ensures o.Written? <==> source.Parsed? && Printable(console, Basename(htmlPath))
    ensures o.NotFound? ==> source.Missing? && o.htmlPath == htmlPath
    ensures o.Failed? ==> source.Unreadable? && o.htmlPath == htmlPath
    ensures o.Raised? ==> !Printable(console, htmlPath) && o.htmlPath == htmlPath
  {
    if !Printable(console, Basename(htmlPath)) then
      UnprintablePath(console, htmlPath);
      Raised(htmlPath)
    else match source
      case Missing => if Printable(console, htmlPath) then NotFound(htmlPath) else Raised(htmlPath)
      case Unreadable => Failed(htmlPath)
      case Parsed(doc) =>
        var title := Title(doc.title, Basename(htmlPath));
        Written(OutputPath(outputDir, title),
                Compose(title, Body(ContentContainer(doc), render, fault)))
  }

  /** A parsed note whose name prints is written inside the output
      directory, to its sanitised title with `.md`, and a title without line
      breaks reads back from the text together with the body. */
  lemma ConvertNoteWrites(doc: Document, htmlPath: string, outputDir: string,
                          render: Renderer, fault: Option<nat>, console: Console)
    ensures var o := ConvertNote(Parsed(doc), htmlPath, outputDir, render, fault, console);
      var title := Title(doc.title, Basename(htmlPath));
      Printable(console, Basename(htmlPath)) ==>
        && o.Written?
        && (o.path == outputDir + (Sanitizer.Sanitize(title) + MD_EXT)
            || o.path == outputDir + [SEP] + (Sanitizer.Sanitize(title) + MD_EXT))
        && Basename(o.path) == Sanitizer.Sanitize(title) + MD_EXT
        && ('\n' !in title ==> SplitNote(o.text) == Some((title, Body(ContentContainer(doc), render, fault))))
  {
    var title := Title(doc.title, Basename(htmlPath));
    var body := Body(ContentContainer(doc), render, fault);
    if '\n' !in title {
      ComposeRoundTrip(title, body);
    }
  }

  /** When a `note-content` div exists, the `content` div plays no part. */
  lemma NoteContentWins(doc: Document, content: Option<seq<Node>>, htmlPath: string, outputDir: string,
                        render: Renderer, fault: Option<nat>, console: Console)
    requires doc.noteContent.Some?
    ensures ConvertNote(Parsed(doc), htmlPath, outputDir, render, fault, console)
            == ConvertNote(Parsed(doc.(content := content)), htmlPath, outputDir, render, fault, console)
  {
    var other := doc.(content := content);
    assert ContentContainer(other) == ContentContainer(doc);
    if Printable(console, Basename(htmlPath)) {
      var title := Title(doc.title, Basename(htmlPath));
      var written := Written(OutputPath(outputDir, title), Compose(title, Body(ContentContainer(doc), render, fault)));
      assert ConvertNote(Parsed(doc), htmlPath, outputDir, render, fault, console) == written;
      assert ConvertNote(Parsed(other), htmlPath, outputDir, render, fault, console) == written;
    } else {
      assert ConvertNote(Parsed(doc), htmlPath, outputDir, render, fault, console) == Raised(htmlPath);
      assert ConvertNote(Parsed(other), htmlPath, outputDir, render, fault, console) == Raised(htmlPath);
    }
  }

  /** Without either container the note is written with its title only:
      the heading and the blank line. */
  lemma NoContainerTitleOnly(doc: Document, htmlPath: string, outputDir: string,
                             render: Renderer, fault: Option<nat>, console: Console)
    requires doc.noteContent.None? && doc.content.None?
    ensures var title := Title(doc.title, Basename(htmlPath));
      Printable(console, Basename(htmlPath)) ==>
        ConvertNote(Parsed(doc), htmlPath, outputDir, render, fault, console)
        == Written(OutputPath(outputDir, title), "# " + title + "\n\n")
  {
    var title := Title(doc.title, Basename(htmlPath));
    assert Body(ContentContainer(doc), render, fault) == "";
    ComposeTitleOnly(title);
  }

  lemma ComposeTitleOnly(title: string)
    ensures Compose(title, "") == "# " + title + "\n\n"
  {
    assert Compose(title, "") == "# " + title + "\n\n" + "";
  }

  /** The content part of `convert_keep_html_to_md`: the checkbox pass runs
      in place on an array holding the container's nodes, and the renderer
      sees the array as the pass left it. */
  method ConvertContent(nodes: seq<Node>, render: Renderer, fault: Option<nat>) returns (body: string)
    ensures body == Body(Some(nodes), render, fault)
  {
    var a := new Node[|nodes|](i requires 0 <= i < |nodes| => nodes[i]);
    assert a[..] == nodes;
    var completed := Checklist.NormalizeChecklist(a, fault);
    var tree := a[..];
    assert tree == PassedTree(nodes, fault);
    var first := if completed then render(tree) else None;
    if first.Some? {
      body := first.value;
    } else {
      var retry := render(tree);
      body := retry.GetOr(FAILED);
    }
  }

  /** `convert_keep_html_to_md`. */
  method Convert(source: Source, htmlPath: string, outputDir: string,
                 render: Renderer, fault: Option<nat>, console: Console) returns (outcome: Outcome)
    ensures outcome == ConvertNote(source, htmlPath, outputDir, render, fault, console)
  {
    var baseFilename := Basename(htmlPath);
    if !Printable(console, baseFilename) {
      return Raised(htmlPath);
    }
    match source
    case Missing =>
      if Printable(console, htmlPath) {
        return NotFound(htmlPath);
      }
      return Raised(htmlPath);
    case Unreadable =>
      return Failed(htmlPath);
    case Parsed(doc) =>
      var title := Title(doc.title, baseFilename);
      var fullPath := OutputPath(outputDir, title);
      var container := ContentContainer(doc);
      var body := "";
      if container.Some? {
        body := ConvertContent(container.value, render, fault);
      }
      return Written(fullPath, Compose(title, body));
  }
}
