# Google Keep HTML to Markdown converter, modelled in Dafny

`convert_keep_to_markdown.py` converts a folder of notes exported from Google
Keep as HTML into Markdown files. Each note goes to a sub-folder
`converted files` of the chosen folder. This project models the
deterministic logic around the three libraries the script uses
(BeautifulSoup, markdownify and tkinter):

- `sanitize_filename`, which turns a title into a file name;
- how a note's title is chosen;
- the checkbox pass, which rewrites checklist items of the content container
  in place as Markdown task lines;
- the fallback chain for the Markdown body;
- the text and the path each note is written to;
- the batch loop of `main`, with its `.html` filter and its counters.

Modules, one per part of the program:

| module | file | models |
|---|---|---|
| `Wrappers` | wrappers.dfy | `Option` |
| `PyStr` | pystr.dfy | the Python `str` methods the script calls: `strip()` and `strip('.')` (with the whitespace set, as `str.isspace` defines it, that `strip()` removes), `replace`, `lower` and `endswith`; and a one-character `find`, used only to read a written note back |
| `PyPath` | pypath.dfy | `posixpath.basename`, `join` of two parts, and the root of `splitext` |
| `Sanitizer` | sanitizer.dfy | `sanitize_filename` |
| `Soup` | soup.dfy | what the script reads from a parsed note: the title `div`, the two content containers, list items with checkboxes, and `get_text(strip=True)` |
| `Checklist` | checklist.dfy | the checkbox pass, as an in-place rewrite of an array of nodes |
| `Converter` | converter.dfy | `convert_keep_html_to_md` |
| `Batch` | batch.dfy | the part of `main` after the folder dialog |

Inputs the model takes as parameters:

- The folder the dialog returns; an empty string means it was cancelled.
- Whether `os.makedirs` succeeds.
- The names `os.listdir` returns, in the order it returns them.
- What reading each file gives, as a `Source`: not found, unreadable, or a
  parsed `Document`.
- Where, if anywhere, an exception interrupts a file's checkbox pass.
- The Markdown renderer: a total function from a container to
  `Some(markdown)`, or to `None` when markdownify raises.
- Which characters standard output can encode, as a `Console`. Printing a
  text with any other character raises.

The model's output is the run `Summary`. It holds the counters and, for each
converted file, an `Outcome`: the path and text written, the error that
was reported, or an exception that escaped the conversion.

How the code differs from what its comments suggest:

- The comment on line 14 says colons are replaced with underscores.
  Line 12 has already deleted every colon, so line 14 never changes anything
  and colons are simply dropped (`ColonIsDeleted`).
- Line 18 runs `strip()` before `strip('.')`, so removing the dots can
  leave whitespace at the ends.
- The cut to 200 characters on line 25 can end the name in a space or a dot.
- `sanitize_filename` is therefore not idempotent.
- A name made only of whitespace and dots need not fall back: `". ."` gives
  `" "` (`DotsAroundSpace`).
- The comment on line 86 calls the retry on line 89 a conversion of the
  "raw content". It renders the same container object, which the checkbox
  pass has already rewritten up to the point where it raised (`BodyRule`).
- The renderer is deterministic. So when the checkbox pass completes and the
  first rendering raises, the retry renders the same tree and raises again.
- A title tag whose text is empty gives "Untitled Note" directly. The file
  name is consulted only when there is no title tag (`TitleRule`).
- `convert_keep_html_to_md` catches every `Exception` raised in its body
  (lines 108-116), so `conversion_errors` in `main` grows only when a handler
  raises again. That happens when standard output cannot encode the file's
  name: the `print` on line 39 raises inside the `try`, the handler prints
  the same name on line 111 and raises again, and the exception reaches
  line 158 (`UnprintableNameCounts`). When every path prints, no error is
  counted and every attempt is reported successful (`NoErrorsWhenPrintable`).

## Model

| member | source | states |
|---|---|---|
| `Sanitizer.Sanitize` | convert_keep_to_markdown.py:9-26 | the file name is never empty, has at most 200 characters, and contains none of the nine forbidden characters and no `+`, including when it is the fallback name |
| `Sanitizer.DeleteForbidden` | convert_keep_to_markdown.py:12 | the deletion keeps no forbidden character, never lengthens the name, and leaves a name without forbidden characters unchanged |
| `Sanitizer.DeleteForbiddenAppend` | convert_keep_to_markdown.py:12 | the deletion works character by character: the result for a concatenation is the concatenation of the results, so the kept characters stay in their order |
| `Sanitizer.Substituted` | convert_keep_to_markdown.py:12-16 | after the deletion and the two replacements, no forbidden character and no `+` remain |
| `Sanitizer.Cleaned` | convert_keep_to_markdown.py:18 | the stripped name keeps that property and neither starts nor ends with a dot |
| `Sanitizer.Finish` | convert_keep_to_markdown.py:20-25 | the fallback and the cut give a non-empty name of at most 200 characters and bring in no forbidden character or `+` |
| `Sanitizer.SanitizeCases` | convert_keep_to_markdown.py:20-25 | the fallback is taken exactly when the stripped name is empty; the all-dots test never fires; a stripped name that fits is kept, and a longer one becomes its first 200 characters |
| `Sanitizer.AllowedIsKept` | convert_keep_to_markdown.py:12 | any other character is kept by the deletion, between what it makes of the text before and of the text after |
| `Sanitizer.ForbiddenIsDeleted` | convert_keep_to_markdown.py:12-16 | inserting any of `\ / * ? : " < > \|` anywhere in a name does not change its file name |
| `Sanitizer.ColonIsDeleted` | convert_keep_to_markdown.py:12-14 | inserting a `:` anywhere in a name does not change its file name: colons are deleted, not turned into `_` |
| `Sanitizer.ColonReplacementIsDead` | convert_keep_to_markdown.py:12-14 | the colon replacement on line 14 does nothing to the output of line 12 |
| `Sanitizer.ColonAndPlus` | convert_keep_to_markdown.py:12-18 | the shape of "My Note: Plan+B": for clean parts `a`, `c` and any `b` without forbidden characters or `+`, `a:b+c` gives `ab_c` |
| `Sanitizer.SanitizeFixedPoint` | convert_keep_to_markdown.py:9-26 | a non-empty name of at most 200 characters, with no forbidden character, no `+`, and no whitespace or dot at either end, is returned unchanged |
| `Sanitizer.SanitizeKeepsSubstituted` | convert_keep_to_markdown.py:18-26 | when the substituted name fits and has no whitespace or dot at either end, the stripping and the cut leave it alone |
| `Sanitizer.OnlySpacesFallBack` | convert_keep_to_markdown.py:12-21 | a name made only of whitespace and forbidden characters (the empty name too) gives "Untitled Note" |
| `Sanitizer.OnlyDotsFallBack` | convert_keep_to_markdown.py:12-21 | a name made only of dots and forbidden characters gives "Untitled Note" |
| `Sanitizer.DotsAroundSpace` | convert_keep_to_markdown.py:18-21 | a dot, a whitespace character and a dot give that whitespace character, not the fallback name |
| `Sanitizer.DotsExposeSpaces` | convert_keep_to_markdown.py:18 | `strip('.')` after `strip()` can leave outer whitespace: " . x . " gives " x " for a clean `x` |
| `Sanitizer.PaddingStripped` | convert_keep_to_markdown.py:18 | one whitespace character on each side of a clean name is stripped |
| `Sanitizer.NotIdempotent` | convert_keep_to_markdown.py:9-26 | sanitising " . x . " twice gives `x`, which differs from sanitising it once |
| `Sanitizer.TruncationCanEndInSpace` | convert_keep_to_markdown.py:23-25 | the cut to 200 characters can leave a trailing space: a clean name of 199 characters followed by " b" keeps the space |
| `PyStr.IsSpace` | convert_keep_to_markdown.py:18 | the whitespace that `strip()` removes; among ASCII characters it is exactly tab, line feed, vertical tab, form feed, carriage return, the four separators U+001C to U+001F, and the space |
| `PyStr.Strip` | convert_keep_to_markdown.py:18 | `strip` never lengthens its input and leaves nothing it removes at either end |
| `PyStr.StripEmpty` | convert_keep_to_markdown.py:18 | a strip comes out empty exactly when it removes every character |
| `PyStr.StripSlice` | convert_keep_to_markdown.py:18 | a strip gives the slice that begins and ends with a character it keeps, when everything outside that slice is removed |
| `PyStr.Replace` | convert_keep_to_markdown.py:14-16 | `replace` keeps the length, turns every occurrence of the old character into the new one and leaves the rest, so no old character remains |
| `PyStr.Lower` | convert_keep_to_markdown.py:152 | `lower()` keeps the length and lower-cases character by character |
| `PyStr.EndsWith` | convert_keep_to_markdown.py:152 | `endswith` holds exactly when the last characters of the string, as many as the suffix has, are the suffix |
| `Soup.GetText` | convert_keep_to_markdown.py:46 | `get_text(strip=True)` never starts or ends with whitespace, and it is empty exactly when every string of the tag strips to nothing |
| `PyPath.Basename` | convert_keep_to_markdown.py:36 | the basename is the suffix of the path after its last separator, and it has no separator |
| `PyPath.Join` | convert_keep_to_markdown.py:55 | an absolute second part replaces the first; otherwise the result starts with the first part and ends with the second, with at most one separator between them |
| `PyPath.BasenameOfJoin` | convert_keep_to_markdown.py:55 | the basename of a directory joined with a name that has no separator is that name |
| `PyPath.JoinStaysInside` | convert_keep_to_markdown.py:55 | such a join is the directory, at most one separator, and then the name |
| `PyPath.StemEmpty` | convert_keep_to_markdown.py:46-48 | the `splitext` root is empty only for the empty path |
| `PyPath.StemOfExtension` | convert_keep_to_markdown.py:46 | the root of `n.ext` is `n` when `ext` has no dot, no part has a separator, and `n` has a character that is not a dot |
| `PyPath.StemOfLeadingDots` | convert_keep_to_markdown.py:46 | leading dots do not start an extension: a name such as `.bashrc` is its own root |
| `PyPath.Stem` | convert_keep_to_markdown.py:46 | the `splitext` root is a prefix of the path, and what it drops is a dot followed by neither a dot nor a separator |
| `Converter.Title` | convert_keep_to_markdown.py:44-48 | the title is never empty |
| `Converter.TitleRule` | convert_keep_to_markdown.py:44-48 | the tag's stripped text when there is a tag and that text is non-empty; "Untitled Note" when the tag's text is empty; the file-name root when there is no tag and the name is non-empty; otherwise "Untitled Note" |
| `Converter.TitleIgnoresFileName` | convert_keep_to_markdown.py:46 | when a title tag exists, the file name has no effect on the title |
| `Converter.TitleFromTagTrimmed` | convert_keep_to_markdown.py:46-48 | a title chosen while a tag exists never starts or ends with whitespace |
| `Converter.TitleFromFileName` | convert_keep_to_markdown.py:46 | without a tag, `n.html` is titled `n` (so `note42.html` gives `note42`) |
| `Converter.OutputPath` | convert_keep_to_markdown.py:51-55 | the output path lies directly inside the output directory: it is the directory, at most one separator, then the sanitised title followed by `.md`, which is its basename |
| `Checklist.TaskLine` | convert_keep_to_markdown.py:69-77 | a task line reads back as its checkbox's state and the stripped text of its next `span`, or the empty label when there is no span |
| `Checklist.ParseTaskLine` | convert_keep_to_markdown.py:74-77 | a line read as a task line is its checked or unchecked prefix followed by its label |
| `Checklist.Rewrite` | convert_keep_to_markdown.py:68-78 | a list item with a checkbox becomes a paragraph whose text reads back as the checkbox's state and label; any other node is unchanged; no checkbox is left |
| `Checklist.Normalized` | convert_keep_to_markdown.py:66-78 | the whole pass keeps the number of nodes and rewrites each one where it stands |
| `Checklist.RewrittenPrefix` | convert_keep_to_markdown.py:66-78 | a pass stopped after `k` nodes has rewritten exactly the first `k` and left the rest as they were |
| `Checklist.NormalizedNodes` | convert_keep_to_markdown.py:66-78 | each node with a checkbox becomes, at the same position, a paragraph whose text reads back as the checkbox's state and label; every other node is unchanged |
| `Checklist.NormalizedIdempotent` | convert_keep_to_markdown.py:66-78 | no checkbox is left after the pass, so a second pass changes nothing |
| `Checklist.NormalizeChecklist` | convert_keep_to_markdown.py:65-78 | the in-place loop completes exactly when no exception interrupts it; the array then holds the container with the nodes before the stopping point rewritten |
| `Converter.Body` | convert_keep_to_markdown.py:62-93 | the Markdown body is empty without a container; otherwise it is one rendering of the container as the checkbox pass left it, or "[Content Conversion Failed]" when that rendering raises |
| `Converter.BodyRule` | convert_keep_to_markdown.py:62-93 | the body is empty without a container; it is one rendering of the rewritten container when the pass completes, or of the partly rewritten one when it raised; it is "[Content Conversion Failed]" when that rendering raises |
| `Converter.ConvertContent` | convert_keep_to_markdown.py:63-93 | running the pass in place on an array and then rendering at most twice gives that body |
| `Converter.Compose` | convert_keep_to_markdown.py:100 | the written text is "# ", the title, a blank line and then the body, and nothing else |
| `Converter.SplitNote` | convert_keep_to_markdown.py:100 | a text read back as a note is "# ", the title, a blank line and the body, and the title has no line break |
| `Converter.ComposeRoundTrip` | convert_keep_to_markdown.py:100 | the written text of a title without line breaks reads back as that title and its body |
| `Converter.ConvertNote` | convert_keep_to_markdown.py:36-116 | a file is written exactly when it parses and its name prints; "not found" comes only from a missing file and a reported error only from an unreadable one; an exception escapes only for a path the console cannot print |
| `Converter.ConvertNoteWrites` | convert_keep_to_markdown.py:36-104 | a parsed note whose name prints is written directly inside the output directory (the directory, at most one separator, then the sanitised title with `.md`), whatever the title; when the title has no line break, the text reads back as that unsanitised title and the body |
| `Converter.NoteContentWins` | convert_keep_to_markdown.py:58-60 | when a `note-content` div exists, the `content` div has no effect on the conversion |
| `Converter.NoContainerTitleOnly` | convert_keep_to_markdown.py:58-100 | without either container, a note whose name prints is written with its title only: exactly "# ", the title and a blank line |
| `Converter.Convert` | convert_keep_to_markdown.py:36-116 | one file, as the conversion function describes it: an escaping exception when its name does not print; "not found", or an escape when the path does not print, for a missing file; a reported error for an unreadable one; otherwise the write |
| `Batch.HtmlNames` | convert_keep_to_markdown.py:150-153 | the filter keeps at most as many names as the listing has |
| `Batch.HtmlNamesMembers` | convert_keep_to_markdown.py:150-153 | the kept names are exactly the listed names whose lower-cased form ends in `.html` |
| `Batch.HtmlNamesAppend` | convert_keep_to_markdown.py:150-153 | the filter, and so `file_count`, distributes over a listing split in two |
| `Batch.UpperCaseExtensionCounts` | convert_keep_to_markdown.py:152 | a name ending in `.HTML` is converted |
| `Batch.ShortExtensionSkipped` | convert_keep_to_markdown.py:152 | a name ending in `.htm` is not converted |
| `Batch.IsHtmlChars` | convert_keep_to_markdown.py:152 | a name is converted exactly when it ends in a dot followed by `h`, `t`, `m` and `l`, each in either case |
| `Batch.Conversions` | convert_keep_to_markdown.py:150-157 | one outcome per converted name |
| `Batch.ConversionsAt` | convert_keep_to_markdown.py:150-157 | the outcome at each position is the conversion of the name at that position, joined onto the input folder |
| `Batch.Errors` | convert_keep_to_markdown.py:156-159 | the number of counted errors is at most the number of conversions |
| `Batch.ErrorsZero` | convert_keep_to_markdown.py:156-159 | no error is counted exactly when no exception escaped any conversion |
| `Batch.RunSummary` | convert_keep_to_markdown.py:131-168 | no folder chosen exactly when the dialog returned nothing; an output-folder error exactly when a folder was chosen and could not be made; otherwise one attempt per `.html` name, one outcome per attempt, escaped exceptions as the errors, and successful plus errors equal to attempted |
| `Batch.ConvertListing` | convert_keep_to_markdown.py:148-159 | the loop's `file_count` is the number of `.html` names, `conversion_errors` is the number of conversions from which an exception escaped, and the outcomes are those of the `.html` names in listing order |
| `Batch.ConvertEntry` | convert_keep_to_markdown.py:151-159 | one pass of the loop counts and converts a name that passes the test, and changes nothing for any other name |
| `Batch.ConvertListed` | convert_keep_to_markdown.py:154-159 | the conversion's outcome is appended, and `conversion_errors` grows by one exactly when an exception escaped it |
| `Batch.RunBatch` | convert_keep_to_markdown.py:131-168 | the summary the run-summary function gives: nothing when no folder is chosen, an error when the output folder cannot be made, otherwise the counters and outcomes |
| `Batch.FinishedRun` | convert_keep_to_markdown.py:138-168 | a finished run attempts one conversion per `.html` name, reports attempted minus errors as successful, counts no error exactly when no exception escaped, and writes only directly inside "converted files" (that directory, at most one separator, then a name ending in `.md`) |
| `Batch.NoErrorsWhenPrintable` | convert_keep_to_markdown.py:148-168 | when every converted path prints, no error is counted and every attempt is reported successful |
| `Batch.UnprintableNameCounts` | convert_keep_to_markdown.py:39-168 | an `.html` name with a character that standard output cannot encode makes the error count positive and the successful count smaller than the attempted one |
| `Batch.WrittenFiles` | convert_keep_to_markdown.py:103-104 | the written paths are exactly the paths of the outcomes that wrote |
| `Batch.LastWriteWins` | convert_keep_to_markdown.py:103-104 | a path holds the text of the last conversion that wrote to it, so notes whose titles sanitise alike overwrite each other |

## Left out

- The tkinter folder dialog (lines 124-129) is user interface. The chosen folder is a parameter.
- `os.makedirs` (line 140) is file-system I/O. Only whether it succeeds is modelled.
- `os.listdir` (line 150) is I/O. The listing is a given sequence of names.
- Opening, decoding and parsing a file (lines 40-41) are I/O plus a foreign library. A `Source` says whether the file was found, could not be read, or parsed to a `Document`.
- BeautifulSoup's tree search (lines 44, 58-60, 66-69) is replaced by the `Document` record: the first title `div`, the two containers, and each list item's first checkbox with the strings of its next `span`.
- Nested list items, list items outside the flat container, and the order in which `find_all` visits them depend on the library, so they are not modelled.
- markdownify (lines 82, 89), and the serialisation `str(content_tag)` that feeds it, are a foreign library. They are the uninterpreted renderer.
- The exceptions the checkbox loop can raise are one optional position at which the pass stops. Which library call raised is not modelled.
- Writing the file (lines 103-104) is I/O and is returned as an `Outcome`.
- `Converter.Convert`: a write that raises, which line 110 catches and reports, is not modelled. Every write of a parsed note is taken to succeed.
- All `print` output (lines 39, 85-116, 127-172) is logging, as is the commented-out traceback. The summary keeps the counters these lines print. Whether a `print` raises is modelled only for the file's name (line 39, and line 111 in its handler) and for the path of a missing file (line 109). The file name printed on line 106 is printed after the write: when it raises, the handler on lines 111-116 reports an error for a file that was written, and the model records only `Written`.
- A `print` of an exception's message (lines 85, 92, 113) raises too when the message holds a character the console cannot encode. Exception messages are not modelled, so neither is that path.
- The `print` calls of `main` outside any `try` (lines 127-147 and 162-172) end the run when they raise. The model takes them to succeed.
- `os.listdir` can return names holding lone surrogates, for bytes that do not decode. Such names are not Dafny `string`s. The model covers them only as names the console cannot print, which is how they raise under a strict encoder.
- Exceptions that are not `Exception`s, such as `KeyboardInterrupt`, escape both handlers. The model never raises them.
- `PyStr.Lower`: lower-cases ASCII letters only. `IsHtmlChars` shows that the model's test accepts exactly the names ending in a dot and `h`, `t`, `m`, `l` in either case. Python's lowering of the other characters produces none of the characters of ".html", so Python's test accepts the same names.
- `PyPath` follows `posixpath` with `/` as the only separator. Windows paths (`ntpath`) are not modelled.
- `PyStr.IsSpace` lists the code points Python's `str.isspace` accepts. Any change to that set in a later Unicode version is not tracked.
