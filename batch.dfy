/** The batch run of `main`: the output folder is created inside the chosen
    folder, every listed name whose lower-cased form ends in `.html` is
    converted, and the counters of the summary are kept. The folder dialog
    and the directory listing are inputs; creating the output folder is
    modelled by whether it succeeds. */
module Batch {
  import opened Wrappers
  import opened PyStr
  import opened PyPath
  import opened Converter

  const OUTPUT_FOLDER := "converted files"
  const HTML_EXT := ".html"

  /** The files of the chosen folder, by path: what reading each gives and
      where, if anywhere, its checkbox pass raises. */
  datatype Files = Files(read: string -> Source, faults: string -> Option<nat>)

  /** Whether a listed name is converted. */
  predicate IsHtml(name: string) {
    EndsWith(Lower(name), HTML_EXT)
  }

  /** The listed names that are converted, in listing order. */
  function HtmlNames(listing: seq<string>): (r: seq<string>)
    ensures |r| <= |listing|
  {
    if listing == [] then []
    else
      var init := listing[..|listing| - 1];
      var last := listing[|listing| - 1];
      HtmlNames(init) + (if IsHtml(last) then [last] else [])
  }

  /** Exactly the names that pass the test are kept. */
  lemma {:induction false} HtmlNamesMembers(listing: seq<string>)
    ensures forall i :: 0 <= i < |HtmlNames(listing)| ==>
              IsHtml(HtmlNames(listing)[i]) && HtmlNames(listing)[i] in listing
    ensures forall i :: 0 <= i < |listing| && IsHtml(listing[i]) ==> listing[i] in HtmlNames(listing)
    decreases |listing|
  {
    if listing != [] {
      var init := listing[..|listing| - 1];
      HtmlNamesMembers(init);
      assert forall i :: 0 <= i < |init| ==> init[i] == listing[i];
    }
  }

  /** The outcomes of converting the given names from `inputDir`. */
  function Conversions(inputDir: string, names: seq<string>, outputDir: string,
                       files: Files, render: Renderer, console: Console): (r: seq<Outcome>)
    ensures |r| == |names|
  {
    if names == [] then []
    else
      var init := names[..|names| - 1];
      var path := Join(inputDir, names[|names| - 1]);
      Conversions(inputDir, init, outputDir, files, render, console)
        + [ConvertNote(files.read(path), path, outputDir, render, files.faults(path), console)]
  }

  /** Each outcome is the conversion of the name at the same position. */
  lemma {:induction false} ConversionsAt(inputDir: string, names: seq<string>, outputDir: string,
                                         files: Files, render: Renderer, console: Console, i: nat)
    requires i < |names|
    ensures Conversions(inputDir, names, outputDir, files, render, console)[i]
            == ConvertNote(files.read(Join(inputDir, names[i])), Join(inputDir, names[i]),
                           outputDir, render, files.faults(Join(inputDir, names[i])), console)
    decreases |names|
  {
    var init := names[..|names| - 1];
    if i < |names| - 1 {
      assert init[i] == names[i];
      ConversionsAt(inputDir, init, outputDir, files, render, console, i);
    }
  }

  /** What `main` ends with: no folder chosen, the output folder could not be
      created, or the counters and the per-file outcomes of a finished run. */
  datatype Summary =
    | NoFolderSelected
    | OutputDirFailed(outputDir: string)
    | Finished(outputDir: string, attempted: nat, successful: nat, errors: nat,
               outcomes: seq<Outcome>)

  /** The number of conversions from which an exception escaped: what
      `conversion_errors` counts. */
  function Errors(outcomes: seq<Outcome>): (n: nat)
    ensures n <= |outcomes|
  {
    if outcomes == [] then 0
    else
      Errors(outcomes[..|outcomes| - 1]) + (if outcomes[|outcomes| - 1].Raised? then 1 else 0)
  }

  /** No error is counted exactly when no exception escaped a conversion. */
  lemma {:induction false} ErrorsZero(outcomes: seq<Outcome>)
    ensures Errors(outcomes) == 0 <==> forall i :: 0 <= i < |outcomes| ==> !outcomes[i].Raised?
    decreases |outcomes|
  {
    if outcomes != [] {
      var init := outcomes[..|outcomes| - 1];
      ErrorsZero(init);
      assert forall i :: 0 <= i < |init| ==> init[i] == outcomes[i];
    }
  }

  /** The summary of a run, as a function of its inputs. */
  function RunSummary(inputDir: string, makeDirsOk: bool, listing: seq<string>,
                      files: Files, render: Renderer, console: Console): (s: Summary)
    ensures s.NoFolderSelected? <==> inputDir == []
    ensures s.OutputDirFailed? <==> inputDir != [] && !makeDirsOk
    ensures s.Finished? ==>
              && s.attempted == |HtmlNames(listing)| == |s.outcomes|
              && s.errors == Errors(s.outcomes)
              && s.successful + s.errors == s.attempted
  {
    if inputDir == [] then NoFolderSelected
    else
      var outputDir := Join(inputDir, OUTPUT_FOLDER);
      if !makeDirsOk then OutputDirFailed(outputDir)
      else
        var names := HtmlNames(listing);
        var outcomes := Conversions(inputDir, names, outputDir, files, render, console);
        var errors := Errors(outcomes);
        Finished(outputDir, |names|, |names| - errors, errors, outcomes)
  }

  /** `main` after the folder dialog. */
  method RunBatch(inputDir: string, makeDirsOk: bool, listing: seq<string>,
                  files: Files, render: Renderer, console: Console) returns (summary: Summary)
    ensures summary == RunSummary(inputDir, makeDirsOk, listing, files, render, console)
  {
    if inputDir == [] {
      return NoFolderSelected;
    }
    var outputDir := Join(inputDir, OUTPUT_FOLDER);
    if !makeDirsOk {
      return OutputDirFailed(outputDir);
    }
    var fileCount, conversionErrors, outcomes := ConvertListing(inputDir, listing, outputDir, files, render, console);
    return Finished(outputDir, fileCount, fileCount - conversionErrors, conversionErrors, outcomes);
  }

  /** The loop of `main` over the directory listing, with its two counters:
      `file_count` counts the `.html` names, and `conversion_errors` the
      conversions from which an exception escaped to the loop's `except`. */
  method ConvertListing(inputDir: string, listing: seq<string>, outputDir: string,
                        files: Files, render: Renderer, console: Console)
    returns (fileCount: nat, conversionErrors: nat, outcomes: seq<Outcome>)
    ensures fileCount == |HtmlNames(listing)|
    ensures outcomes == Conversions(inputDir, HtmlNames(listing), outputDir, files, render, console)
    ensures conversionErrors == Errors(outcomes)
  {
    fileCount := 0;
    conversionErrors := 0;
    outcomes := [];
    var i := 0;
    while i < |listing|
      invariant 0 <= i <= |listing|
      invariant fileCount == |HtmlNames(listing[..i])|
      invariant outcomes == Conversions(inputDir, HtmlNames(listing[..i]), outputDir, files, render, console)
      invariant conversionErrors == Errors(outcomes)
    {
      fileCount, conversionErrors, outcomes :=
        ConvertEntry(inputDir, listing, i, outputDir, files, render, console, fileCount, conversionErrors, outcomes);
      i := i + 1;
    }
    assert listing[..i] == listing;
  }

  /** One pass of the loop, for the listed name at position `i`: a name that
      passes the test is counted and converted, its outcome is added to
      `outcomes`, and `conversionErrors` grows by one when an exception
      escaped the conversion. Any other name changes nothing. */
  method ConvertEntry(inputDir: string, listing: seq<string>, i: nat, outputDir: string,
                      files: Files, render: Renderer, console: Console,
                      fileCount: nat, conversionErrors: nat, outcomes: seq<Outcome>)
    returns (fileCount': nat, conversionErrors': nat, outcomes': seq<Outcome>)
    requires i < |listing|
    requires fileCount == |HtmlNames(listing[..i])|
    requires outcomes == Conversions(inputDir, HtmlNames(listing[..i]), outputDir, files, render, console)
    requires conversionErrors == Errors(outcomes)
    ensures fileCount' == |HtmlNames(listing[..i + 1])|
    ensures outcomes' == Conversions(inputDir, HtmlNames(listing[..i + 1]), outputDir, files, render, console)
    ensures conversionErrors' == Errors(outcomes')
  {
    var filename := listing[i];
    ghost var names := HtmlNames(listing[..i]);
    HtmlNamesStep(listing, i);
    if IsHtml(filename) {
      assert HtmlNames(listing[..i + 1]) == names + [filename];
      fileCount' := fileCount + 1;
      outcomes', conversionErrors' :=
        ConvertListed(inputDir, names, filename, outputDir, files, render, console, outcomes, conversionErrors);
    } else {
      assert HtmlNames(listing[..i + 1]) == names;
      fileCount', conversionErrors', outcomes' := fileCount, conversionErrors, outcomes;
    }
  }

  /** The `try` around one conversion: the outcome is added to `outcomes`,
      and `conversionErrors` grows by one when an exception escaped. */
  method ConvertListed(inputDir: string, ghost names: seq<string>, name: string, outputDir: string,
                       files: Files, render: Renderer, console: Console,
                       outcomes: seq<Outcome>, conversionErrors: nat)
    returns (outcomes': seq<Outcome>, conversionErrors': nat)
    requires outcomes == Conversions(inputDir, names, outputDir, files, render, console)
    requires conversionErrors == Errors(outcomes)
    ensures outcomes' == Conversions(inputDir, names + [name], outputDir, files, render, console)
    ensures conversionErrors' == Errors(outcomes')
  {
    var htmlPath := Join(inputDir, name);
    var outcome := Convert(files.read(htmlPath), htmlPath, outputDir, render, files.faults(htmlPath), console);
    ConversionsStep(inputDir, names, name, outputDir, files, render, console);
    ErrorsStep(outcomes, outcome);
    outcomes' := outcomes + [outcome];
    conversionErrors' := conversionErrors;
    if outcome.Raised? {
      conversionErrors' := conversionErrors + 1;
    }
  }

  lemma ErrorsStep(outcomes: seq<Outcome>, outcome: Outcome)
    ensures Errors(outcomes + [outcome]) == Errors(outcomes) + (if outcome.Raised? then 1 else 0)
  {
    assert (outcomes + [outcome])[..|outcomes|] == outcomes;
  }

  lemma HtmlNamesStep(listing: seq<string>, i: nat)
    requires i < |listing|
    ensures HtmlNames(listing[..i + 1])
            == HtmlNames(listing[..i]) + (if IsHtml(listing[i]) then [listing[i]] else [])
  {
    assert listing[..i + 1][..i] == listing[..i];
  }

  lemma ConversionsStep(inputDir: string, names: seq<string>, name: string, outputDir: string,
                        files: Files, render: Renderer, console: Console)
    ensures Conversions(inputDir, names + [name], outputDir, files, render, console)
            == Conversions(inputDir, names, outputDir, files, render, console)
               + [ConvertNote(files.read(Join(inputDir, name)), Join(inputDir, name), outputDir,
                              render, files.faults(Join(inputDir, name)), console)]
  {
    assert (names + [name])[..|names|] == names;
  }

  /** The count is additive over a listing split in two. */
  lemma {:induction false} HtmlNamesAppend(xs: seq<string>, ys: seq<string>)
    ensures HtmlNames(xs + ys) == HtmlNames(xs) + HtmlNames(ys)
    decreases |ys|
  {
    if ys == [] {
      assert xs + ys == xs;
    } else {
      var init := ys[..|ys| - 1];
      var last := ys[|ys| - 1];
      assert (xs + ys)[..|xs + ys| - 1] == xs + init;
      assert (xs + ys)[|xs + ys| - 1] == last;
      HtmlNamesAppend(xs, init);
    }
  }

  /** The lower-cased test accepts an upper-case extension: any name followed
      by `.HTML` is converted. */
  lemma UpperCaseExtensionCounts(n: string)
    ensures IsHtml(n + ".HTML")
  {
    LowerAppend(n, ".HTML");
    assert LowerChar('H') == 'h' && LowerChar('T') == 't' && LowerChar('M') == 'm' && LowerChar('L') == 'l';
    assert Lower(".HTML") == HTML_EXT;
    EndsWithAppended(Lower(n), HTML_EXT);
  }

  /** A name ending in `.htm` is not converted. */
  lemma ShortExtensionSkipped(n: string)
    ensures !IsHtml(n + ".htm")
  {
    var s := n + ".htm";
    assert s[|s| - 1] == 'm';
    assert Lower(s)[|s| - 1] == 'm';
  }

  /** The test, character by character: a name is converted exactly when it
      ends in a dot followed by `html` in any mix of cases. */
  lemma IsHtmlChars(n: string)
    ensures IsHtml(n) <==>
              && |n| >= 5 && n[|n| - 5] == '.'
              && n[|n| - 4] in "hH" && n[|n| - 3] in "tT" && n[|n| - 2] in "mM" && n[|n| - 1] in "lL"
  {
    var l := Lower(n);
    if |n| >= 5 {
      LowerCharIs(n[|n| - 5], '.');
      LowerCharIs(n[|n| - 4], 'h');
      LowerCharIs(n[|n| - 3], 't');
      LowerCharIs(n[|n| - 2], 'm');
      LowerCharIs(n[|n| - 1], 'l');
      assert IsHtml(n) <==> forall i :: 0 <= i < 5 ==> l[|n| - 5 + i] == HTML_EXT[i];
      assert (forall i :: 0 <= i < 5 ==> l[|n| - 5 + i] == HTML_EXT[i]) <==>
             l[|n| - 5] == '.' && l[|n| - 4] == 'h' && l[|n| - 3] == 't' && l[|n| - 2] == 'm' && l[|n| - 1] == 'l';
    }
  }

  /** Which characters lower-case to a given lower-case letter or a dot. */
  lemma LowerCharIs(c: char, d: char)
    requires d == '.' || 'a' <= d <= 'z'
    ensures LowerChar(c) == d <==> c == d || (d != '.' && c as int == d as int - 32)
  {
  }

  /** A finished run attempts one conversion per listed name whose
      lower-cased form ends in `.html`, counts as errors exactly the
      conversions from which an exception escaped, and reports the rest as
      successful. Every outcome is the conversion of one of those names, and
      every written file lies directly inside the output folder, named as
      the sanitised title with `.md`. */
  lemma FinishedRun(inputDir: string, listing: seq<string>, files: Files, render: Renderer, console: Console)
    requires inputDir != []
    ensures var s := RunSummary(inputDir, true, listing, files, render, console);
      && s.Finished?
      && s.outputDir == Join(inputDir, OUTPUT_FOLDER)
      && s.attempted == |HtmlNames(listing)| == |s.outcomes|
      && s.successful == s.attempted - s.errors
      && (s.errors == 0 <==> forall i :: 0 <= i < |s.outcomes| ==> !s.outcomes[i].Raised?)
      && forall i :: 0 <= i < |s.outcomes| && s.outcomes[i].Written? ==>
           (s.outcomes[i].path == s.outputDir + Basename(s.outcomes[i].path)
            || s.outcomes[i].path == s.outputDir + [SEP] + Basename(s.outcomes[i].path))
           && EndsWith(Basename(s.outcomes[i].path), MD_EXT)
  {
    var s := RunSummary(inputDir, true, listing, files, render, console);
    ErrorsZero(s.outcomes);
    forall i | 0 <= i < |s.outcomes| && s.outcomes[i].Written?
      ensures s.outcomes[i].path == s.outputDir + Basename(s.outcomes[i].path)
              || s.outcomes[i].path == s.outputDir + [SEP] + Basename(s.outcomes[i].path)
      ensures EndsWith(Basename(s.outcomes[i].path), MD_EXT)
    {
      var path := Join(inputDir, HtmlNames(listing)[i]);
      ConversionsAt(inputDir, HtmlNames(listing), s.outputDir, files, render, console, i);
      match files.read(path)
      case Parsed(doc) =>
        var title := Title(doc.title, Basename(path));
        var b := Basename(s.outcomes[i].path);
        assert b == Sanitizer.Sanitize(title) + MD_EXT;
        assert b[|b| - |MD_EXT|..] == MD_EXT;
      case Missing =>
      case Unreadable =>
    }
  }

  /** When the console can print the path of every converted file, no
      exception escapes a conversion and every attempt counts as successful. */
  lemma NoErrorsWhenPrintable(inputDir: string, listing: seq<string>, files: Files, render: Renderer,
                              console: Console)
    requires inputDir != []
    requires forall i :: 0 <= i < |HtmlNames(listing)| ==> Printable(console, Join(inputDir, HtmlNames(listing)[i]))
    ensures var s := RunSummary(inputDir, true, listing, files, render, console);
      s.Finished? && s.errors == 0 && s.successful == s.attempted
  {
    var s := RunSummary(inputDir, true, listing, files, render, console);
    forall i | 0 <= i < |s.outcomes| ensures !s.outcomes[i].Raised? {
      ConversionsAt(inputDir, HtmlNames(listing), s.outputDir, files, render, console, i);
    }
    ErrorsZero(s.outcomes);
  }

  /** A listed `.html` name holding a character the console cannot encode
      makes its conversion raise: printing the name fails at line 39 and
      again in the handler, so the error counter grows and fewer
      conversions than attempted count as successful. */
  lemma UnprintableNameCounts(inputDir: string, listing: seq<string>, files: Files, render: Renderer,
                              console: Console, k: nat)
    requires inputDir != []
    requires k < |listing| && IsHtml(listing[k]) && SEP !in listing[k]
    requires !Printable(console, listing[k])
    ensures var s := RunSummary(inputDir, true, listing, files, render, console);
      s.Finished? && s.errors > 0 && s.successful < s.attempted
  {
    var s := RunSummary(inputDir, true, listing, files, render, console);
    var names := HtmlNames(listing);
    HtmlNamesMembers(listing);
    assert listing[k] in names;
    var j :| 0 <= j < |names| && names[j] == listing[k];
    ConversionsAt(inputDir, names, s.outputDir, files, render, console, j);
    BasenameOfJoin(inputDir, listing[k]);
    assert s.outcomes[j].Raised?;
    ErrorsZero(s.outcomes);
  }

  /** The files on disk after a run: each written path holds the text of the
      last conversion that wrote to it, since opening with 'w' truncates. */
  function WrittenFiles(outcomes: seq<Outcome>): (m: map<string, string>)
    ensures forall p :: p in m <==> exists i :: 0 <= i < |outcomes| && outcomes[i].Written? && outcomes[i].path == p
  {
    if outcomes == [] then map[]
    else
      var init := outcomes[..|outcomes| - 1];
      var last := outcomes[|outcomes| - 1];
      var m := WrittenFiles(init);
      assert forall i :: 0 <= i < |init| ==> init[i] == outcomes[i];
      if last.Written? then m[last.path := last.text] else m
  }

  /** Two notes that give the same output path overwrite each other: the
      file holds the text of the later one. */
  lemma {:induction false} LastWriteWins(outcomes: seq<Outcome>, i: nat)
    requires i < |outcomes| && outcomes[i].Written?
    requires forall j :: i < j < |outcomes| && outcomes[j].Written? ==> outcomes[j].path != outcomes[i].path
    ensures WrittenFiles(outcomes)[outcomes[i].path] == outcomes[i].text
    decreases |outcomes|
  {
    if i < |outcomes| - 1 {
      var init := outcomes[..|outcomes| - 1];
      assert init[i] == outcomes[i];
      LastWriteWins(init, i);
    }
  }
}
