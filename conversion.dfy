/**
 * The conversion pipeline `process_pdf_gradio` (main.py, lines 175-259) and
 * the draft writer of `ocr_pdf_to_markdown` (lines 36-56), over a file system
 * modelled as a map from path to contents.
 *
 * A request names the uploaded PDF, the export format and the cover options.
 * The OCR service, the two clock readings, base64 decoding, whether the cover
 * file can be opened, whether pandoc is installed and pandoc's conversion are
 * inputs of the model (`Services`); each may fail where the program lets it.
 *
 * `Convert` states what one call does to the file system and what it
 * replies; `OutputStore.ProcessPdf` performs the call step by step and is
 * proved to agree with it.
 */
module Conversion {
  import opened Wrappers
  import Paths
  import OutputNamer
  import ImageRelinker
  import PageNumbers
  import CoverExtractor

  /** The export formats the user can pick; any other value is kept as `Other`. */
  datatype Format = Markdown | Epub | Mobi | Other(name: string)

  /** The contents of a file: text written in text mode or bytes written in binary mode. */
  datatype FileData = Text(text: string) | Binary(bytes: seq<bv8>)

  /** The user's input: the uploaded PDF (if any), the format, a manual cover (if any) and the auto-cover switch. */
  datatype Request = Request(pdf: Option<string>, format: Format, manualCover: Option<string>, autoCover: bool)

  /** What the outside world answers during one call. */
  datatype Services = Services(
    ocr: Result<seq<ImageRelinker.Page>, string>,
    timestamp: string,
    coverTimestamp: string,
    decode: string -> Option<CoverExtractor.Bytes>,
    coverWritable: bool,
    pandocAvailable: bool,
    convert: (Format, string, Option<FileData>) -> Result<CoverExtractor.Bytes, string>)

  /** The pair returned to the interface, or nothing at all. */
  datatype Reply = Reply(path: Option<string>, message: string) | NoReply

  const OutputDir: string := "outputs"
  const NoPdfMessage: string := "Please upload a PDF file"
  const PandocMissing: string := "Pandoc not installed. Install with: pip install pypandoc pandoc"

  // ---------------------------------------------------------------------------
  // The draft

  /** One page as written to the draft: images relinked, then page numbers stripped. */
  function PageText(p: ImageRelinker.Page): string {
    PageNumbers.StripPageNumbers(ImageRelinker.RelinkImages(p.markdown, p.images))
  }

  /** The draft: the pages written one after another. */
  function DraftText(pages: seq<ImageRelinker.Page>): string
    decreases |pages|
  {
    if pages == [] then "" else DraftText(pages[..|pages| - 1]) + PageText(pages[|pages| - 1])
  }

  /** A page with no image data and no digit goes into the draft exactly as the OCR service returned it. */
  lemma PlainPageKept(p: ImageRelinker.Page)
    requires forall k :: 0 <= k < |p.images| ==> p.images[k].base64.None? || p.images[k].base64.value == ""
    requires forall k :: 0 <= k < |p.markdown| ==> !PageNumbers.IsDigit(p.markdown[k])
    ensures PageText(p) == p.markdown
  {
    ImageRelinker.ImagesWithoutDataUnchanged(p.markdown, p.images);
    PageNumbers.NoDigitUnchanged(p.markdown);
  }

  // ---------------------------------------------------------------------------
  // Reading the draft back

  /**
   * Lines 221-222: a file opened in text mode is read with universal newlines,
   * so each "\r\n" and each lone "\r" reaches the program as "\n".  (Writing
   * in text mode on a POSIX system leaves "\n" as it is.)
   */
  function ReadBack(s: string): (r: string)
    ensures |r| <= |s|
    decreases |s|
  {
    if s == [] then []
    else if s[0] == '\r' then "\n" + ReadBack(if |s| > 1 && s[1] == '\n' then s[2..] else s[1..])
    else [s[0]] + ReadBack(s[1..])
  }

  /** No carriage return survives the read. */
  lemma {:induction false} ReadBackHasNoCarriageReturn(s: string)
    ensures forall k :: 0 <= k < |ReadBack(s)| ==> ReadBack(s)[k] != '\r'
    decreases |s|
  {
    if s == [] {
    } else if s[0] == '\r' {
      ReadBackHasNoCarriageReturn(if |s| > 1 && s[1] == '\n' then s[2..] else s[1..]);
    } else {
      ReadBackHasNoCarriageReturn(s[1..]);
    }
  }

  /** A text without a carriage return is read back exactly as it was written. */
  lemma {:induction false} ReadBackKeepsPlainText(s: string)
    requires forall k :: 0 <= k < |s| ==> s[k] != '\r'
    ensures ReadBack(s) == s
    decreases |s|
  {
    if s != [] {
      ReadBackKeepsPlainText(s[1..]);
    }
  }

  /** Writing the text that was read and reading it again gives the same text. */
  lemma ReadBackIdempotent(s: string)
    ensures ReadBack(ReadBack(s)) == ReadBack(s)
  {
    ReadBackHasNoCarriageReturn(s);
    ReadBackKeepsPlainText(ReadBack(s));
  }

  /** Both line-end conventions become "\n"; other characters are kept. */
  lemma ReadBackExample()
    ensures ReadBack("a\r\nb\rc\n") == "a\nb\nc\n"
  {
    assert ReadBack("\n") == "\n" by { assert "\n"[1..] == []; }
    assert ReadBack("c\n") == "c\n" by { assert "c\n"[1..] == "\n"; }
    assert ReadBack("\rc\n") == "\nc\n" by { assert "\rc\n"[1..] == "c\n"; }
    assert ReadBack("b\rc\n") == "b\nc\n" by { assert "b\rc\n"[1..] == "\rc\n"; }
    assert ReadBack("\r\nb\rc\n") == "\nb\nc\n" by { assert "\r\nb\rc\n"[2..] == "b\rc\n"; }
    assert "a\r\nb\rc\n"[1..] == "\r\nb\rc\n";
  }

  // ---------------------------------------------------------------------------
  // Paths

  /** Line 182: `original_name`, the file name without directory and extension. */
  function OriginalName(pdf: string): string {
    Paths.SplitExt(Paths.BaseName(pdf)).0
  }

  /** An upload `uploads/report.pdf` gives the name `report`. */
  lemma OriginalNameExample()
    ensures OriginalName("uploads/report.pdf") == "report"
  {
    var p := "uploads/report.pdf";
    Paths.LastIndexIs(p, '/', 7);
    assert p[8..] == "report.pdf";
    Paths.SplitExtReport();
  }

  /** Lines 184-190: the target extension. */
  function TargetExtension(format: Format): string {
    match format
    case Markdown => ".md"
    case Epub => ".epub"
    case _ => ".mobi"
  }

  /** The temporary draft of an EPUB or MOBI conversion. */
  function TempDraftPath(timestamp: string): string {
    "outputs/temp_" + timestamp + ".md"
  }

  /** The names one call works with: the output file's name and path, and the draft's path. */
  datatype Plan = Plan(finalName: string, outputPath: string, draftPath: string)

  /**
   * Lines 181-208: the first free candidate name in `outputs`, and the draft
   * path, which is the output path itself for Markdown.
   */
  function PlanFor(files: map<string, FileData>, pdf: string, format: Format, timestamp: string): Plan {
    var base, ext := OriginalName(pdf), TargetExtension(format);
    var finalName := OutputNamer.Candidate(base, OutputNamer.FirstFree(files.Keys, OutputDir, base, ext, 0), ext);
    var outputPath := Paths.Join(OutputDir, finalName);
    Plan(finalName, outputPath, if format == Markdown then outputPath else TempDraftPath(timestamp))
  }

  // ---------------------------------------------------------------------------
  // One call, as a function

  /** After the cover step: the cover to pass on, the extracted cover to delete later, the draft text and the files. */
  datatype CoverStep = CoverStep(cover: Option<string>, extracted: Option<string>, draft: string,
                                 files: map<string, FileData>)

  /**
   * Lines 213-231: a manual cover is used as it is; otherwise, with the switch
   * on, the draft is read back, the first image is extracted from what was
   * read, written as the cover and cut out of that text, which is written as
   * the new draft.  When no cover comes out, the draft file is left as it was.
   */
  function ChooseCover(files: map<string, FileData>, draftPath: string, draft: string,
                       req: Request, svc: Services): CoverStep
  {
    if req.manualCover.Some? then CoverStep(req.manualCover, None, draft, files)
    else if !req.autoCover then CoverStep(None, None, draft, files)
    else
      var x := CoverExtractor.ExtractFirstImageAsCover(ReadBack(draft), OutputDir, svc.coverTimestamp, svc.decode,
                                                       svc.coverWritable);
      match x.cover
      case None => CoverStep(None, None, draft, files)
      case Some(c) =>
        CoverStep(Some(c.path), Some(c.path), x.text, files[c.path := Binary(c.image)][draftPath := Text(x.text)])
  }

  /** Lines 98-100 and 110-112: pandoc gets the cover only when its path is non-empty and exists. */
  function CoverData(files: map<string, FileData>, cover: Option<string>): Option<FileData> {
    match cover
    case Some(p) => if p != "" && p in files then Some(files[p]) else None
    case None => None
  }

  /** The success message of each format. */
  function SuccessMessage(format: Format, finalName: string): string {
    match format
    case Markdown => "Conversion completed: " + finalName
    case Epub => "Conversion to EPUB completed: " + finalName
    case _ => "Conversion to MOBI completed: " + finalName
  }

  /** `map - {k}` when `k` is present: `os.remove` after `os.path.exists`. */
  function RemoveIfPresent(files: map<string, FileData>, path: Option<string>): map<string, FileData> {
    if path.Some? && path.value in files then files - {path.value} else files
  }

  /**
   * Lines 233-259: Markdown is done; EPUB and MOBI run pandoc and, when it
   * succeeds, delete the draft and the extracted cover; any other format falls
   * through without a reply.  Errors are reported and nothing is cleaned up.
   */
  function Finish(step: CoverStep, format: Format, plan: Plan, svc: Services): (Reply, map<string, FileData>) {
    match format
    case Markdown => (Reply(Some(plan.outputPath), SuccessMessage(format, plan.finalName)), step.files)
    case Other(_) => (NoReply, step.files)
    case _ =>
      if !svc.pandocAvailable then (Reply(None, "Error: " + PandocMissing), step.files)
      else match svc.convert(format, step.draft, CoverData(step.files, step.cover))
        case Failure(e) => (Reply(None, "Error: " + e), step.files)
        case Success(bytes) =>
          var converted := step.files[plan.outputPath := Binary(bytes)];
          (Reply(Some(plan.outputPath), SuccessMessage(format, plan.finalName)),
           RemoveIfPresent(RemoveIfPresent(converted, Some(plan.draftPath)), step.extracted))
  }

  /** Lines 210-259: the call once the names are fixed. */
  function Run(files: map<string, FileData>, req: Request, svc: Services, plan: Plan): (Reply, map<string, FileData>) {
    match svc.ocr
    case Failure(e) => (Reply(None, "Error: " + e), files)
    case Success(pages) =>
      var draft := DraftText(pages);
      Finish(ChooseCover(files[plan.draftPath := Text(draft)], plan.draftPath, draft, req, svc), req.format, plan, svc)
  }

  /** One call of `process_pdf_gradio`: the reply and the file system after it. */
  function Convert(files: map<string, FileData>, req: Request, svc: Services): (Reply, map<string, FileData>) {
    match req.pdf
    case None => (Reply(None, NoPdfMessage), files)
    case Some(pdf) => Run(files, req, svc, PlanFor(files, pdf, req.format, svc.timestamp))
  }

  // ---------------------------------------------------------------------------
  // What one call promises

  /** An EPUB or MOBI output never lands on the temporary draft: the last characters differ. */
  lemma OutputIsNotDraft(name: string, format: Format, timestamp: string)
    requires format != Markdown
    requires |TargetExtension(format)| <= |name|
    requires name[|name| - 1] == TargetExtension(format)[|TargetExtension(format)| - 1]
    ensures Paths.Join(OutputDir, name) != TempDraftPath(timestamp)
  {
    var out, draft := Paths.Join(OutputDir, name), TempDraftPath(timestamp);
    assert out[|out| - |name|..] == name;
    assert out[|out| - 1] == name[|name| - 1] != 'd';
    assert draft[|draft| - 1] == 'd';
  }

  /**
   * The output path is free: the first candidate, counting up, that does not
   * exist.  The draft is the output itself exactly for Markdown; otherwise the
   * two differ, as their extensions do.
   */
  lemma PlanIsFresh(files: map<string, FileData>, pdf: string, format: Format, timestamp: string)
    ensures var plan := PlanFor(files, pdf, format, timestamp);
      var base, ext := OriginalName(pdf), TargetExtension(format);
      var n := OutputNamer.FirstFree(files.Keys, OutputDir, base, ext, 0);
      && plan.finalName == base + OutputNamer.Suffix(n) + ext
      && plan.outputPath == Paths.Join(OutputDir, plan.finalName)
      && plan.outputPath !in files
      && (forall c: nat :: c < n ==> OutputNamer.CandidatePath(OutputDir, base, c, ext) in files)
      && (plan.draftPath == plan.outputPath <==> format == Markdown)
  {
    var base, ext := OriginalName(pdf), TargetExtension(format);
    OutputNamer.FirstFreeIsLeast(files.Keys, OutputDir, base, ext, 0);
    if format != Markdown {
      var n := OutputNamer.FirstFree(files.Keys, OutputDir, base, ext, 0);
      var name := base + OutputNamer.Suffix(n) + ext;
      assert name[|name| - 1] == ext[|ext| - 1];
      OutputIsNotDraft(name, format, timestamp);
    }
  }

  /** A reply naming a file names the output path of the plan. */
  lemma RunRepliesOutput(files: map<string, FileData>, req: Request, svc: Services, plan: Plan)
    ensures var r := Run(files, req, svc, plan).0;
      r.Reply? && r.path.Some? ==> r.path.value == plan.outputPath
  {
  }

  /** Whatever happens, a reply naming a file names a path that did not exist before the call. */
  lemma ReplyNamesFreshOutput(files: map<string, FileData>, req: Request, svc: Services)
    ensures var r := Convert(files, req, svc).0;
      r.Reply? && r.path.Some? ==>
        req.pdf.Some? && r.path.value == PlanFor(files, req.pdf.value, req.format, svc.timestamp).outputPath
        && r.path.value !in files
  {
    if req.pdf.Some? {
      var plan := PlanFor(files, req.pdf.value, req.format, svc.timestamp);
      PlanIsFresh(files, req.pdf.value, req.format, svc.timestamp);
      RunRepliesOutput(files, req, svc, plan);
    }
  }

  /** Without a PDF, or when the OCR service fails, the file system is untouched and the reply says why. */
  lemma EarlyErrorsChangeNothing(files: map<string, FileData>, req: Request, svc: Services)
    requires req.pdf.None? || svc.ocr.Failure?
    ensures Convert(files, req, svc)
         == (Reply(None, if req.pdf.None? then NoPdfMessage else "Error: " + svc.ocr.error), files)
  {
  }

  /** Markdown without an extracted cover: the draft is the output file, and nothing else changes. */
  lemma MarkdownWritesOutput(files: map<string, FileData>, req: Request, svc: Services, plan: Plan,
                             pages: seq<ImageRelinker.Page>)
    requires req.format == Markdown && plan.draftPath == plan.outputPath && svc.ocr == Success(pages)
    requires req.manualCover.Some? || !req.autoCover
    ensures Run(files, req, svc, plan)
         == (Reply(Some(plan.outputPath), "Conversion completed: " + plan.finalName),
             files[plan.outputPath := Text(DraftText(pages))])
  {
  }

  /** The cover step with an extracted cover: the cover is written and the draft, as read back, is rewritten without the image. */
  lemma CoverStepExtracted(files: map<string, FileData>, draftPath: string, draft: string, req: Request,
                           svc: Services, x: CoverExtractor.Extraction)
    requires req.manualCover.None? && req.autoCover
    requires x == CoverExtractor.ExtractFirstImageAsCover(ReadBack(draft), OutputDir, svc.coverTimestamp, svc.decode,
                                                          svc.coverWritable)
    requires x.cover.Some?
    ensures ChooseCover(files[draftPath := Text(draft)], draftPath, draft, req, svc)
         == CoverStep(Some(x.cover.value.path), Some(x.cover.value.path), x.text,
                      files[x.cover.value.path := Binary(x.cover.value.image)][draftPath := Text(x.text)])
  {
    var c := x.cover.value;
    var written := files[draftPath := Text(draft)];
    assert ChooseCover(written, draftPath, draft, req, svc)
        == CoverStep(Some(c.path), Some(c.path), x.text, written[c.path := Binary(c.image)][draftPath := Text(x.text)]);
    assert written[c.path := Binary(c.image)][draftPath := Text(x.text)]
        == files[c.path := Binary(c.image)][draftPath := Text(x.text)];
  }

  /**
   * Markdown with an extracted cover: the cover file is written, the output
   * holds the draft, as read back in text mode, with the image cut out, and
   * nothing is deleted.
   */
  lemma MarkdownWithExtractedCover(files: map<string, FileData>, req: Request, svc: Services, plan: Plan,
                                   pages: seq<ImageRelinker.Page>, x: CoverExtractor.Extraction)
    requires req.format == Markdown && plan.draftPath == plan.outputPath && svc.ocr == Success(pages)
    requires req.manualCover.None? && req.autoCover
    requires x == CoverExtractor.ExtractFirstImageAsCover(ReadBack(DraftText(pages)), OutputDir, svc.coverTimestamp,
                                                          svc.decode, svc.coverWritable)
    requires x.cover.Some?
    ensures Run(files, req, svc, plan)
         == (Reply(Some(plan.outputPath), SuccessMessage(Markdown, plan.finalName)),
             files[x.cover.value.path := Binary(x.cover.value.image)][plan.outputPath := Text(x.text)])
  {
    CoverStepExtracted(files, plan.draftPath, DraftText(pages), req, svc, x);
  }

  /** Only a successful EPUB or MOBI conversion deletes files; every other outcome keeps every existing path. */
  lemma OnlyEbookSuccessDeletes(files: map<string, FileData>, req: Request, svc: Services)
    ensures var (r, after) := Convert(files, req, svc);
      !((req.format == Epub || req.format == Mobi) && r.Reply? && r.path.Some?) ==> files.Keys <= after.Keys
  {
  }

  /**
   * A failed EPUB or MOBI conversion reports the error and leaves the draft
   * (and any extracted cover) behind: there is no cleanup on failure.
   */
  lemma EbookFailureKeepsDraft(files: map<string, FileData>, req: Request, svc: Services, plan: Plan,
                               pages: seq<ImageRelinker.Page>)
    requires (req.format == Epub || req.format == Mobi) && svc.ocr == Success(pages)
    ensures var (r, after) := Run(files, req, svc, plan);
      r.Reply? && r.path.None? ==>
        && r.message[..7] == "Error: "
        && (!svc.pandocAvailable ==> r.message == "Error: " + PandocMissing)
        && plan.draftPath in after && after[plan.draftPath].Text?
        && files.Keys <= after.Keys
  {
  }

  /** The extracted cover of a cover step, as a set of paths. */
  function ExtractedPaths(step: CoverStep): set<string> {
    if step.extracted.Some? then {step.extracted.value} else {}
  }

  /**
   * The cover step adds the draft and the extracted cover, if any, to the
   * files and leaves every other file as it was; the draft stays text.
   */
  lemma CoverStepFiles(files: map<string, FileData>, draftPath: string, draft: string, req: Request, svc: Services)
    ensures var step := ChooseCover(files[draftPath := Text(draft)], draftPath, draft, req, svc);
      var x := CoverExtractor.ExtractFirstImageAsCover(ReadBack(draft), OutputDir, svc.coverTimestamp, svc.decode,
                                                       svc.coverWritable);
      && step.extracted == (if req.manualCover.None? && req.autoCover && x.cover.Some? then Some(x.cover.value.path)
                            else None)
      && step.files.Keys == files.Keys + {draftPath} + ExtractedPaths(step)
      && (forall k :: k in step.files && k != draftPath && k !in ExtractedPaths(step) ==> step.files[k] == files[k])
      && draftPath in step.files && step.files[draftPath].Text?
  {
  }

  /**
   * A successful pandoc run writes the output and removes the draft and the
   * extracted cover; every other file keeps its contents.
   */
  lemma FinishCleansUp(step: CoverStep, format: Format, plan: Plan, svc: Services)
    requires format == Epub || format == Mobi
    requires plan.outputPath != plan.draftPath
    requires Finish(step, format, plan, svc).0.Reply? && Finish(step, format, plan, svc).0.path.Some?
    ensures var (r, after) := Finish(step, format, plan, svc);
      && r.message == SuccessMessage(format, plan.finalName)
      && after.Keys == step.files.Keys + {plan.outputPath} - {plan.draftPath} - ExtractedPaths(step)
      && (forall k :: k in after && k != plan.outputPath ==> after[k] == step.files[k])
      && (plan.outputPath in after ==> after[plan.outputPath].Binary?)
  {
  }

  /**
   * A successful EPUB or MOBI conversion adds the output file, removes the
   * temporary draft and the extracted cover, and leaves every other file as
   * it was.
   */
  lemma EbookSuccessCleansUp(files: map<string, FileData>, req: Request, svc: Services, plan: Plan,
                             pages: seq<ImageRelinker.Page>)
    requires (req.format == Epub || req.format == Mobi) && svc.ocr == Success(pages)
    requires plan.outputPath != plan.draftPath
    requires Run(files, req, svc, plan).0.Reply? && Run(files, req, svc, plan).0.path.Some?
    ensures var after := Run(files, req, svc, plan).1;
      var x := CoverExtractor.ExtractFirstImageAsCover(ReadBack(DraftText(pages)), OutputDir, svc.coverTimestamp,
                                                       svc.decode, svc.coverWritable);
      var extracted: set<string> :=
        if req.manualCover.None? && req.autoCover && x.cover.Some? then {x.cover.value.path} else {};
      && Run(files, req, svc, plan).0.message == SuccessMessage(req.format, plan.finalName)
      && after.Keys == files.Keys + {plan.outputPath} - {plan.draftPath} - extracted
      && (forall k :: k in after && k != plan.outputPath ==> after[k] == files[k])
      && (plan.outputPath in after ==> after[plan.outputPath].Binary?)
  {
    var draft := DraftText(pages);
    var step := ChooseCover(files[plan.draftPath := Text(draft)], plan.draftPath, draft, req, svc);
    assert Run(files, req, svc, plan) == Finish(step, req.format, plan, svc);
    CoverStepFiles(files, plan.draftPath, draft, req, svc);
    FinishCleansUp(step, req.format, plan, svc);
  }

  /** A manual cover wins: the auto-cover switch then changes nothing, and no file but the output and the draft appears. */
  lemma ManualCoverWins(files: map<string, FileData>, req: Request, svc: Services, plan: Plan)
    requires req.manualCover.Some?
    ensures Run(files, req, svc, plan) == Run(files, req.(autoCover := false), svc, plan)
    ensures forall k :: k in Run(files, req, svc, plan).1 && k !in files ==> k == plan.outputPath || k == plan.draftPath
  {
  }

  // ---------------------------------------------------------------------------
  // One call, step by step

  class OutputStore {
    var files: map<string, FileData>

    constructor(initial: map<string, FileData>)
      ensures files == initial
    {
      files := initial;
    }

    /** Lines 36-56: the draft is opened for writing and every page is appended in turn. */
    method WriteDraft(path: string, pages: seq<ImageRelinker.Page>)
      modifies this
      ensures files == old(files)[path := Text(DraftText(pages))]
    {
      files := files[path := Text("")];
      var i := 0;
      while i < |pages|
        invariant 0 <= i <= |pages|
        invariant files == old(files)[path := Text(DraftText(pages[..i]))]
      {
        var content := ImageRelinker.RelinkPage(pages[i]);
        content := PageNumbers.StripPageNumbers(content);
        assert pages[..i + 1][..i] == pages[..i];
        files := files[path := Text(files[path].text + content)];
        i := i + 1;
      }
      assert pages[..i] == pages;
    }

    /** Lines 213-231, on the file system. */
    method ChooseCoverFor(draftPath: string, req: Request, svc: Services)
      returns (cover: Option<string>, extracted: Option<string>)
      modifies this
      requires draftPath in files && files[draftPath].Text?
      ensures var step := ChooseCover(old(files), draftPath, old(files)[draftPath].text, req, svc);
        cover == step.cover && extracted == step.extracted && files == step.files
        && draftPath in files && files[draftPath] == Text(step.draft)
    {
      cover, extracted := None, None;
      if req.manualCover.Some? {
        cover := req.manualCover;
      } else if req.autoCover {
        var content := ReadBack(files[draftPath].text);
        var x := CoverExtractor.ExtractFirstImageAsCover(content, OutputDir, svc.coverTimestamp, svc.decode, svc.coverWritable);
        if x.cover.Some? {
          files := files[x.cover.value.path := Binary(x.cover.value.image)];
          cover := Some(x.cover.value.path);
          extracted := cover;
          files := files[draftPath := Text(x.text)];
        }
      }
    }

    /** Lines 233-259, on the file system. */
    method FinishFor(format: Format, plan: Plan, cover: Option<string>, extracted: Option<string>, svc: Services)
      returns (reply: Reply)
      modifies this
      requires plan.draftPath in files && files[plan.draftPath].Text?
      ensures (reply, files)
           == Finish(CoverStep(cover, extracted, old(files)[plan.draftPath].text, old(files)), format, plan, svc)
    {
      var outputPath, draftPath := plan.outputPath, plan.draftPath;
      if format == Markdown {
        reply := Reply(Some(outputPath), "Conversion completed: " + plan.finalName);
      } else if format == Epub || format == Mobi {
        if !svc.pandocAvailable {
          reply := Reply(None, "Error: " + PandocMissing);
          return;
        }
        var result := svc.convert(format, files[draftPath].text, CoverData(files, cover));
        if result.Failure? {
          reply := Reply(None, "Error: " + result.error);
          return;
        }
        files := files[outputPath := Binary(result.value)];
        if draftPath in files {
          files := files - {draftPath};
        }
        if extracted.Some? && extracted.value in files {
          files := files - {extracted.value};
        }
        reply := Reply(Some(outputPath), SuccessMessage(format, plan.finalName));
      } else {
        reply := NoReply;
      }
    }

    /** Lines 175-259: one call of `process_pdf_gradio`. */
    method ProcessPdf(req: Request, svc: Services) returns (reply: Reply)
      modifies this
      ensures (reply, files) == Convert(old(files), req, svc)
    {
      if req.pdf.None? {
        return Reply(None, NoPdfMessage);
      }
      var pdf := req.pdf.value;
      var finalName, counter := OutputNamer.UniqueOutputName(files.Keys, OutputDir, OriginalName(pdf), TargetExtension(req.format));
      var outputPath := Paths.Join(OutputDir, finalName);
      var draftPath := if req.format == Markdown then outputPath else TempDraftPath(svc.timestamp);
      var plan := Plan(finalName, outputPath, draftPath);
      if svc.ocr.Failure? {
        return Reply(None, "Error: " + svc.ocr.error);
      }
      WriteDraft(draftPath, svc.ocr.value);
      var cover, extracted := ChooseCoverFor(draftPath, req, svc);
      reply := FinishFor(req.format, plan, cover, extracted, svc);
    }
  }
}
