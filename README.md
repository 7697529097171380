# ocr-pdf-to-ebook: the text and file-name pipeline, in Dafny

`main.py` turns an uploaded PDF into Markdown, EPUB or MOBI. An OCR service returns one markdown page at a time, with the page's images as base64 strings. The program then does four things:

- it puts every image back into its page as an inline data URI and strips page-number lines;
- it writes the result as a Markdown draft;
- it optionally cuts the first inline image out of the draft and keeps it as the cover;
- it hands the draft to pandoc, and afterwards removes the intermediate files.

This project models that pipeline and proves what each step does.

| file | module | models |
|---|---|---|
| `wrappers.dfy` | `Wrappers` | `Option` and `Result` |
| `paths.dfy` | `Paths` | `os.path.join` (two parts), `os.path.basename`, `os.path.splitext` |
| `relink.dfy` | `ImageRelinker` | the image relinker: the data-URI prefix and `re.sub` of `\(<id>(\.[a-z]{3,4})?\)` (lines 39-51) |
| `page_numbers.dfy` | `PageNumbers` | the page-number stripper: the multi-line `re.sub` of line 54 |
| `strip_idempotence.dfy` | `StripIdempotence` | why a second pass of the line-54 stripper changes nothing |
| `cover.dfy` | `CoverExtractor` | `extract_first_image_as_cover` (lines 60-91) |
| `namer.dfy` | `OutputNamer` | the unique-name `while True` loop (lines 193-200) |
| `conversion.dfy` | `Conversion` | `process_pdf_gradio` (lines 175-259) and the draft writer (lines 36-56), over a file system held in a class |

**Regular expressions.** Each one becomes two things:

- a predicate for the pattern's language, written as cuts in the text (`IsPlaceholder`, `IsMatch`, `IsImageMatch`);
- a matcher that takes decisions in the same order as Python's backtracking engine (`PlaceholderLength`, `FooterAt`, `FindImage`).

Soundness and completeness lemmas connect the two. The matchers follow these rules:

- A greedy quantifier whose class cannot start what follows it takes a maximal run. In that case backtracking never changes the outcome.
- The one quantifier that does give characters back is the trailing `\s*` before `$`. `LastLineEnd` backtracks it explicitly.
- The lazy `.*?` of the cover pattern takes the shortest alt text that lets the rest match.
- `re.sub` scans left to right, resumes after each match, and deletes or replaces what it matched.

**The orchestrator.** `Conversion.Convert` is a function: one call maps the files before it to the reply and the files after it. `Conversion.OutputStore.ProcessPdf` performs the same call step by step on a `files` map:

- it writes the draft page by page;
- it rewrites the draft after cover extraction;
- it writes and removes files.

Its contract is that it agrees with `Convert`.

The outside world is passed in as the `Services` value:

- the OCR result;
- the two clock readings;
- base64 decoding;
- whether the cover file can be opened;
- whether pandoc is installed;
- pandoc's conversion.

The clock readings are plain timestamp strings. Each of the others can fail: the OCR call with a message, decoding with no result, the cover file by not opening, pandoc by being missing or by its conversion failing.

**Where the program's comments and its code disagree, the model follows the code.** Some of these points are also plain behaviour of the code that a reader may not expect.

- After a failed EPUB or MOBI conversion, nothing is cleaned up: the removals of lines 245-248 and 252-255 come after the pandoc call, and an exception skips them to the handler of lines 258-259. The draft, and any extracted cover, stay in `outputs` (`Conversion.EbookFailureKeepsDraft`).
- The stripper is not line by line. Python's `\s` matches a newline, so one match can run over several lines:
  - it can absorb the blank lines after a footer;
  - `Page` and its number can stand on different lines.
  `PageNumbers.FooterLineDeleted` states what happens to a footer line, `PageNumbers.OtherLineKept` states what happens to any other line, and `PageNumbers.FooterStripsToNothing` covers a footer spread over several lines.
- The comment on line 53 says that `- 5 -` is removed. The pattern does not allow `-`, so such a line is kept (`PageNumbers.OtherLineKept`).
- A Markdown request with auto-cover cuts the image out of the output and keeps the extracted cover file (`Conversion.MarkdownWithExtractedCover`).
- The lazy `.*?` of the cover pattern can run over an earlier image that has no data URI, since only a newline stops it. In `![a](y) ![b](data:image/png;base64,QQ==)` the first match is the whole text, so the cut removes `![a](y) ` as well (`CoverExtractor.FindImageIsFirst`, `CoverExtractor.RemoveFirstMatch`).
- The draft is read back in text mode before the cover is cut out (lines 221-222). Universal newlines turn each `\r\n` and each lone `\r` into `\n`. The draft is rewritten only when a cover is found, and then it holds the read-back text with the image cut out (`Conversion.CoverStepExtracted`).

## Model

| member | source | states |
|---|---|---|
| Paths.SplitExtParts | main.py:182 | `splitext` loses nothing (root + extension is the path). The extension is empty or a `.` followed by no further `.` or `/`, so it starts at the last `.`. An extension is split off exactly when the last path component holds a `.` after some other character. |
| Paths.SplitExtReport | main.py:182 | `report.pdf` splits into `report` and `.pdf`. |
| Paths.SplitExtLastDot | main.py:182 | `scans/book.v2.pdf` splits at its last `.` only. |
| Paths.SplitExtDotFile | main.py:182 | `a/.bashrc` has no extension: only dots precede its `.` in the last component. |
| Paths.BaseName | main.py:182 | `os.path.basename` returns a tail of the path that holds no `/`. |
| Paths.BaseNameOfJoin | main.py:182 | Taking the base name of a file name joined under a directory gives the file name back. |
| Paths.Join | main.py:197 | `os.path.join` ends with its second part. |
| Paths.JoinInjective | main.py:197 | Two file names that are both relative, or both absolute, give the same joined path only when they are equal. |
| Paths.JoinUnderDirectory | main.py:197 | Joining a name that does not start with `/` under a directory that does not end with `/` puts exactly one `/` between them. |
| OutputNamer.DecimalRoundTrip | main.py:195 | Reading back the decimal digits of `str(counter)` gives the counter. |
| OutputNamer.SuffixInjective | main.py:195 | Distinct counters get distinct suffixes (`""`, `_1`, `_2`, ...). |
| OutputNamer.CandidatePathInjective | main.py:195-197 | Distinct counters name distinct paths, so each round of the loop checks a new file. |
| OutputNamer.TriedSize | main.py:193-200 | `n` counters that name distinct paths name exactly `n` paths. |
| OutputNamer.CandidatesBound | main.py:193-200 | If the first `n` candidates all exist, the directory holds at least `n` files. So the loop tries at most one more candidate than there are files. |
| OutputNamer.FirstFreeIsLeast | main.py:193-200 | The counter where the search stops names a free path, every smaller counter names an existing one, and the counter is at most the number of files. |
| OutputNamer.LeastFreeIsFirstFree | main.py:193-200 | A counter whose path is free while every smaller counter's path exists is the one the search stops at. |
| OutputNamer.UniqueOutputName | main.py:193-200 | The loop returns `name + suffix + ext` for the first counter whose path under the directory does not exist. Every smaller counter's path exists, and the counter is at most the number of files. |
| OutputNamer.ReportNames | main.py:195-196 | The names tried for `report` and `.epub` are `report.epub`, `report_1.epub`, `report_2.epub`. |
| OutputNamer.ReportPaths | main.py:197 | Those names are checked as `outputs/report.epub`, `outputs/report_1.epub`, `outputs/report_2.epub`. |
| OutputNamer.ReportExample | main.py:193-200 | With `report.epub` and `report_1.epub` already in `outputs`, the new file is `report_2.epub`. |
| ImageRelinker.ImageUri | main.py:45-47 | The URI is the base64 string itself exactly when the string starts with `data:`; otherwise it is `data:image/jpeg;base64,` followed by the string. Either way it starts with `data:` and ends with the string. |
| ImageRelinker.ReplacePlaceholders | main.py:51 | Every character `re.sub` produces comes from the text or from the replacement. |
| ImageRelinker.PlaceholderLength | main.py:50-51 | A length the matcher reports delimits a placeholder: `(`, the id taken literally, an optional `.` with 3 or 4 lower-case letters, and `)`. |
| ImageRelinker.PlaceholderRecognised | main.py:50-51 | Every placeholder that starts the text is found by the matcher, with its exact length. |
| ImageRelinker.NoPlaceholderUnchanged | main.py:51 | `re.sub` leaves a text with no placeholder for the id unchanged. |
| ImageRelinker.LeftmostPlaceholderReplaced | main.py:51 | `re.sub` keeps the text before the leftmost placeholder, replaces that placeholder, and goes on with the text right after it. |
| ImageRelinker.RelinkImageUnchanged | main.py:44-51 | An image with absent or empty data, or one whose id no placeholder names, leaves the page text as it is. |
| ImageRelinker.RelinkImageReplaces | main.py:44-51 | An image with data rewrites its leftmost placeholder, `(id)` or `(id.ext)`, to `(uri)` and handles the rest of the text in the same way. |
| ImageRelinker.RelinkImage | main.py:44-51 | The page text changes only for an image with non-empty data, and then every new character comes from `(uri)`. |
| ImageRelinker.ImagesWithoutDataUnchanged | main.py:42-51 | A page none of whose images carries data keeps its markdown verbatim. |
| ImageRelinker.RelinkPage | main.py:40-51 | The per-image loop that reassigns `content` ends with every image applied in list order. |
| ImageRelinker.RelinkImages | main.py:42-51 | After every image of the page is applied, each character comes from the page's markdown or from the `(uri)` link of an image that carries data. |
| PageNumbers.LastLineEnd | main.py:54 | The backtracking `\s*$` stops at the last line end in the run of spaces. There is no line end after it, and the result is none when the run holds no line end. |
| PageNumbers.FooterAtSound | main.py:54 | A match found at a position is a text of the pattern's language standing between a line start and a line end, and it is not empty. |
| PageNumbers.FooterAtComplete | main.py:54 | Wherever a text of the pattern's language stands at a line start, the matcher finds a match there at least as long. |
| PageNumbers.MatchChars | main.py:54 | A match holds only whitespace, digits and letters of `Page` and `of`, with a digit where its number starts. |
| PageNumbers.DeletedAreFooterChars | main.py:54 | The scan deletes only whitespace, digits and letters of `Page` and `of`. |
| PageNumbers.StripKeepsOtherChars | main.py:54 | Every other character survives the stripper, in the same order. |
| PageNumbers.NoDigitUnchanged | main.py:54 | A text without a digit comes back unchanged. |
| PageNumbers.OtherLineKept | main.py:54 | A line holding any other character is kept verbatim, with the newlines on either side of it. |
| PageNumbers.FooterLineDeleted | main.py:54 | A line made only of optional whitespace, an optional `Page`, a number, an optional `of <number>` and whitespace is blanked: all of its characters are deleted. |
| PageNumbers.FooterStripsToNothing | main.py:54 | A text that is one footer as a whole, even over several lines, strips to nothing. |
| PageNumbers.PageOfTotalStripped | main.py:54 | `Page 3 of 10` on its own strips to the empty string. |
| StripIdempotence.KeptPositionsHaveNoMatch | main.py:54 | The scan tries every position it keeps, so no match starts at a kept position. |
| StripIdempotence.DeletedRunsStartLines | main.py:54 | Every run of deleted characters begins at a line start. |
| StripIdempotence.DeletedRunsEndLines | main.py:54 | Every run of deleted characters ends at a line end. |
| StripIdempotence.NothingDeletedWithoutMatches | main.py:54 | Where the pattern matches at no position, the scan deletes nothing. |
| StripIdempotence.NoMatchAfterStrip | main.py:54 | No match of the pattern starts anywhere in the stripped text. |
| StripIdempotence.StripIdempotent | main.py:54 | Stripping page numbers twice gives the same text as stripping once. |
| CoverExtractor.RestAtSound | main.py:67 | What the matcher finds after the alt text completes a match of the cover pattern. |
| CoverExtractor.RestAtComplete | main.py:67 | Once the alt text is fixed, the format and payload groups can match in one way only, and the matcher finds it. |
| CoverExtractor.AltFromSound | main.py:67 | The lazy alt-text search finds only matches, starting at the given position. |
| CoverExtractor.AltFromShortest | main.py:67 | The lazy `.*?` finds a match with an alt text no longer than that of any match at the same start. |
| CoverExtractor.FindImage | main.py:68 | A match `re.search` reports starts at or after the search position, and it is the match the pattern makes at that start. |
| CoverExtractor.FindImageSound | main.py:68 | `re.search` reports only matches of the pattern. |
| CoverExtractor.FindImageComplete | main.py:68 | `re.search` finds a match whenever one exists. The match it finds starts no later than any other, and at the same start its alt text is no longer. |
| CoverExtractor.FindImageIsFirst | main.py:67-68 | `re.search` reports the first match, and reports none exactly when the text holds no match. |
| CoverExtractor.FirstMatchUnique | main.py:67-68 | There is exactly one first match. |
| CoverExtractor.FirstOccurrenceIs | main.py:85 | `str.replace(..., 1)` acts on the occurrence that has no other occurrence before it. |
| CoverExtractor.CopyIsMatch | main.py:67-85 | The pattern has no anchor, so a copy of a match's text anywhere in the text is a match there too. |
| CoverExtractor.FirstMatchOccursFirst | main.py:71-85 | The first occurrence of the matched text is the match itself. |
| CoverExtractor.RemoveFirstMatch | main.py:85 | Removing the first occurrence of the matched text cuts out exactly that match and keeps everything after it, later copies included. |
| CoverExtractor.FailureLeavesText | main.py:80-91 | Whenever no cover comes back, the text comes back unchanged. A cover file that cannot be opened gives no cover. |
| CoverExtractor.NoImageNoCover | main.py:68-91 | A text without a data-URI image gives no cover and comes back unchanged. |
| CoverExtractor.ExtractFirstMatch | main.py:70-86 | With the first match found: a payload that does not decode gives `(None, text)`. One that decodes is written to `<dir>/cover_<timestamp>.<fmt>`, with `fmt` the captured letters, and the text comes back with exactly that match cut out. |
| Conversion.PlainPageKept | main.py:39-56 | A page with no image data and no digit goes into the draft exactly as the OCR service returned it. |
| Conversion.OriginalNameExample | main.py:182 | The upload `uploads/report.pdf` gives the name `report`. |
| Conversion.ReadBackHasNoCarriageReturn | main.py:221-222 | Reading the draft in text mode leaves no carriage return. |
| Conversion.ReadBackKeepsPlainText | main.py:221-222 | A text without carriage returns is read back as it was written. |
| Conversion.ReadBackIdempotent | main.py:221-222 | Reading back what was read back changes nothing. |
| Conversion.ReadBackExample | main.py:221-222 | `a\r\nb\rc\n` is read back as `a\nb\nc\n`. |
| Conversion.OutputIsNotDraft | main.py:203-208 | The output path of an EPUB or MOBI conversion is never the temporary draft path. |
| Conversion.PlanIsFresh | main.py:181-208 | The output file name is `name + suffix + ext` for the first free counter, and its path does not exist yet. Every smaller counter's path exists. The draft is the output path exactly for Markdown. |
| Conversion.RunRepliesOutput | main.py:242-256 | A reply that names a file names the planned output path. |
| Conversion.ReplyNamesFreshOutput | main.py:175-259 | Whatever happens, a reply that names a file names a path that did not exist before the call. |
| Conversion.EarlyErrorsChangeNothing | main.py:177-211 | Without a PDF, or when the OCR service fails, the reply says why and no file changes. |
| Conversion.MarkdownWritesOutput | main.py:203-242 | Markdown without an extracted cover writes the draft to the output path, replies with it and changes nothing else. |
| Conversion.CoverStepExtracted | main.py:219-231 | When extraction from the draft as read back finds a cover, the cover file is written and the draft is rewritten as that read-back text without the image. |
| Conversion.MarkdownWithExtractedCover | main.py:219-242 | Markdown with an extracted cover writes the cover file, writes the output as the draft read back with the image cut out, and deletes nothing. |
| Conversion.OnlyEbookSuccessDeletes | main.py:175-259 | Only a successful EPUB or MOBI conversion deletes files. Every other outcome keeps every existing path. |
| Conversion.EbookFailureKeepsDraft | main.py:243-259 | A failed EPUB or MOBI conversion replies `Error: ...` (the pandoc message when pandoc is missing) and keeps the draft and every existing file. |
| Conversion.CoverStepFiles | main.py:213-231 | The cover step adds the draft and the extracted cover, if any, and changes no other file. The extracted cover exists only when no manual cover is given and auto-cover is on. |
| Conversion.FinishCleansUp | main.py:243-256 | A successful pandoc run writes the output, removes the draft and the extracted cover, and keeps every other file's contents. |
| Conversion.EbookSuccessCleansUp | main.py:243-256 | A successful EPUB or MOBI conversion adds the output file, removes the temporary draft and any auto-extracted cover, and leaves every other file as it was. |
| Conversion.ManualCoverWins | main.py:217-219 | With a manual cover, the auto-cover switch changes nothing, and no file besides the output and the draft appears. |
| Conversion.OutputStore.WriteDraft | main.py:36-56 | Writing the draft page by page leaves the draft file holding every page, relinked and stripped, in order. No other file changes. |
| Conversion.OutputStore.ChooseCoverFor | main.py:213-231 | The cover step on the file system, reading the draft back in text mode, agrees with `ChooseCover`. |
| Conversion.OutputStore.FinishFor | main.py:233-259 | The final step on the file system agrees with `Finish`. |
| Conversion.OutputStore.ProcessPdf | main.py:175-259 | One call on the file system gives the reply and the files that `Convert` states. |

## Left out

- The OCR call (lines 18-34) is a network client. Its result is a parameter: a list of pages, or an error message.
- pandoc (`markdown_to_epub` and `markdown_to_mobi`, lines 94-117) is an external tool. It is a parameter that may fail and otherwise yields the output bytes. Two parts of those functions are modelled: the `RuntimeError` when pandoc is missing, and the rule that the cover is passed only if its path is non-empty and exists (`Conversion.CoverData`).
- The Gradio interface (lines 278-364) and the file-manager handlers (lines 120-172 and 262-275) are user-interface I/O over the same directory, with nothing to prove.
- base64 encoding and decoding are library calls. Decoding is a parameter that returns an option.
- The `datetime.now()` readings (lines 76 and 207) are parameters. Same-second collisions between `temp_` and `cover_` names are not modelled.
- The model assumes a single writer: nothing changes `outputs` between the existence check and the write.
- `os.makedirs`: directories are not modelled; a path is a string key of the file map.
- Failures to write the draft or the rewritten draft (lines 38 and 230) are not modelled: those writes always succeed.
- The `print` on line 88 is left out.
- Only some Unicode digits are modelled. `PageNumbers.IsDigit` covers the ASCII, Arabic-Indic and Extended Arabic-Indic digits of Python's `\d`; other Unicode decimal digits are treated as non-digits.
- The empty cover file that `open(..., "wb")` leaves when decoding then fails (lines 81-82) is not modelled. A failed extraction leaves the files unchanged.
- Any format other than Markdown, EPUB and MOBI falls through the final `if`/`elif` chain without a reply (`NoReply`). Only the interface's three choices can reach the function.
- Conversion.EbookSuccessCleansUp: states the files after the call but not the bytes pandoc produced. In a contrived case the extracted cover's path equals the output path; the output is then removed as the cover, and the lemma allows this because it constrains the output only when the output is present.
- ImageRelinker.RelinkImage: `re.sub` reads the replacement `(uri)` as a template, so a backslash escape in it would be expanded (main.py:51); the model inserts the text literally. A base64 payload holds no `\`, so only a `data:` string with a backslash differs, and a bad escape there raises an error that lines 258-259 turn into an `Error: ...` reply.
- The model is of a POSIX host: paths use `posixpath` with `/` as the only separator, and a text-mode write leaves `\n` as it is, so the draft written at lines 38-56 holds exactly the relinked and stripped page texts.
