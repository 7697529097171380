/**
 * The cover extractor `extract_first_image_as_cover` (main.py, lines 60-91):
 * the first inline image whose URL is a base64 data URI,
 *
 *   !\[.*?\]\((data:image\/([a-zA-Z]+);base64,([^\)]+))\)
 *
 * found by `re.search`, is decoded into `<output_dir>/cover_<timestamp>.<fmt>`
 * and its first occurrence is removed from the text.  Opening the file or
 * decoding the payload may fail; either failure gives back no cover and the
 * text unchanged.
 *
 * The matcher mirrors the regex engine: the start positions are tried left
 * to right, the lazy `.*?` tries the shortest alt text first (and never runs
 * past a newline), and the rest of the pattern is deterministic, since a
 * letter run is followed by `;` and a run of non-`)` characters by `)`.
 */
module CoverExtractor {
  import opened Wrappers
  import Paths

  type Bytes = seq<bv8>

  /** `[a-zA-Z]`. */
  predicate IsAsciiLetter(c: char) {
    ('a' <= c <= 'z') || ('A' <= c <= 'Z')
  }

  /** What separates the alt text from the image format. */
  const UriHead: string := "](data:image/"
  /** What separates the image format from the payload. */
  const Base64Marker: string := ";base64,"

  /** The string `t` stands in `s` at position `i`. */
  predicate LiteralAt(s: string, i: nat, t: string) {
    i + |t| <= |s| && forall k :: 0 <= k < |t| ==> s[i + k] == t[k]
  }

  /** `[lo, hi)` holds no newline: what `.*?` may consume. */
  predicate NoNewlineIn(s: string, lo: nat, hi: nat) {
    lo <= hi <= |s| && forall k :: lo <= k < hi ==> s[k] != '\n'
  }

  /** `[lo, hi)` is a non-empty run of ASCII letters: what `[a-zA-Z]+` may consume. */
  predicate LettersIn(s: string, lo: nat, hi: nat) {
    lo < hi <= |s| && forall k :: lo <= k < hi ==> IsAsciiLetter(s[k])
  }

  /** `[lo, hi)` is a non-empty run without `)`: what `[^\)]+` may consume. */
  predicate NoParenIn(s: string, lo: nat, hi: nat) {
    lo < hi <= |s| && forall k :: lo <= k < hi ==> s[k] != ')'
  }

  // ---------------------------------------------------------------------------
  // The pattern's language, as cuts in the text

  /**
   * One match, cut along the pattern: `![` at `start`, the alt text up to
   * `altEnd`, `](data:image/`, the format letters up to `fmtEnd`, `;base64,`,
   * the payload up to `dataEnd`, and `)` at `dataEnd`.
   */
  datatype ImageMatch = ImageMatch(start: nat, altEnd: nat, fmtEnd: nat, dataEnd: nat)

  /** `!\[.*?\]\(data:image\/` from `start`, the alt text ending at `altEnd`. */
  predicate ImageHead(s: string, start: nat, altEnd: nat) {
    && start + 2 <= |s| && s[start] == '!' && s[start + 1] == '['
    && NoNewlineIn(s, start + 2, altEnd)
    && LiteralAt(s, altEnd, UriHead)
  }

  /** `([a-zA-Z]+);base64,([^\)]+)\)` from `fmtStart`, with the cuts `fmtEnd` and `dataEnd`. */
  predicate ImageTail(s: string, fmtStart: nat, fmtEnd: nat, dataEnd: nat) {
    && LettersIn(s, fmtStart, fmtEnd)
    && LiteralAt(s, fmtEnd, Base64Marker)
    && NoParenIn(s, fmtEnd + |Base64Marker|, dataEnd)
    && dataEnd < |s| && s[dataEnd] == ')'
  }

  predicate IsImageMatch(s: string, m: ImageMatch) {
    ImageHead(s, m.start, m.altEnd) && ImageTail(s, m.altEnd + |UriHead|, m.fmtEnd, m.dataEnd)
  }

  /**
   * The match `re.search` reports: no match starts further left, and among the
   * matches at its start it has the shortest alt text.
   */
  ghost predicate IsFirstMatch(s: string, m: ImageMatch) {
    && IsImageMatch(s, m)
    && forall m' :: IsImageMatch(s, m') ==> m.start < m'.start || (m.start == m'.start && m.altEnd <= m'.altEnd)
  }

  /** Group 0: the whole image reference. */
  function MatchedText(s: string, m: ImageMatch): string
    requires IsImageMatch(s, m)
  {
    s[m.start..m.dataEnd + 1]
  }

  /** Group 2: the image format. */
  function ImageFormat(s: string, m: ImageMatch): string
    requires IsImageMatch(s, m)
  {
    s[m.altEnd + |UriHead|..m.fmtEnd]
  }

  /** Group 3: the base64 payload. */
  function Payload(s: string, m: ImageMatch): string
    requires IsImageMatch(s, m)
  {
    s[m.fmtEnd + |Base64Marker|..m.dataEnd]
  }

  // ---------------------------------------------------------------------------
  // The matcher

  /** What a greedy `[a-zA-Z]+` from `j` consumes: the end of the run of letters. */
  function LetterEnd(s: string, j: nat): (e: nat)
    requires j <= |s|
    ensures j <= e <= |s|
    ensures e == |s| || !IsAsciiLetter(s[e])
    decreases |s| - j
  {
    if j < |s| && IsAsciiLetter(s[j]) then LetterEnd(s, j + 1) else j
  }

  /** What a greedy `[^\)]+` from `j` consumes: the end of the run before the next `)`. */
  function PayloadEnd(s: string, j: nat): (e: nat)
    requires j <= |s|
    ensures j <= e <= |s|
    ensures e == |s| || s[e] == ')'
    decreases |s| - j
  {
    if j < |s| && s[j] != ')' then PayloadEnd(s, j + 1) else j
  }

  /** The rest of the pattern after the alt text ends at `a`: the cuts `fmtEnd` and `dataEnd` if it matches. */
  function RestAt(s: string, a: nat): Option<(nat, nat)> {
    if !LiteralAt(s, a, UriHead) then None
    else
      var f := LetterEnd(s, a + |UriHead|);
      if f == a + |UriHead| || !LiteralAt(s, f, Base64Marker) then None
      else
        var d := PayloadEnd(s, f + |Base64Marker|);
        if d == f + |Base64Marker| || d == |s| then None else Some((f, d))
  }

  /** The lazy `.*?` from a match started at `i`: alt ends from `a` on, shortest first, stopping at a newline. */
  function AltFrom(s: string, i: nat, a: nat): (r: Option<ImageMatch>)
    requires a <= |s|
    ensures r.Some? ==> r.value.start == i && a <= r.value.altEnd
    decreases |s| - a
  {
    match RestAt(s, a)
    case Some((f, d)) => Some(ImageMatch(i, a, f, d))
    case None => if a < |s| && s[a] != '\n' then AltFrom(s, i, a + 1) else None
  }

  /** The pattern tried at position `i`. */
  function ImageAt(s: string, i: nat): (r: Option<ImageMatch>)
    ensures r.Some? ==> r.value.start == i
  {
    if i + 2 <= |s| && s[i] == '!' && s[i + 1] == '[' then AltFrom(s, i, i + 2) else None
  }

  /** `re.search` from `from` on: the first position where the pattern matches. */
  function FindImage(s: string, from: nat): (r: Option<ImageMatch>)
    ensures r.Some? ==> from <= r.value.start && ImageAt(s, r.value.start) == r
    decreases |s| - from
  {
    if from >= |s| then None
    else match ImageAt(s, from)
      case Some(m) => Some(m)
      case None => FindImage(s, from + 1)
  }

  // ---------------------------------------------------------------------------
  // Runs

  lemma {:induction false} LetterRun(s: string, j: nat)
    requires j <= |s|
    ensures forall k :: j <= k < LetterEnd(s, j) ==> IsAsciiLetter(s[k])
    decreases |s| - j
  {
    if j < |s| && IsAsciiLetter(s[j]) { LetterRun(s, j + 1); }
  }

  lemma {:induction false} PayloadRun(s: string, j: nat)
    requires j <= |s|
    ensures forall k :: j <= k < PayloadEnd(s, j) ==> s[k] != ')'
    decreases |s| - j
  {
    if j < |s| && s[j] != ')' { PayloadRun(s, j + 1); }
  }

  /** A run of letters followed by a non-letter is exactly what `[a-zA-Z]+` consumes. */
  lemma {:induction false} LetterEndIs(s: string, j: nat, e: nat)
    requires j <= e <= |s|
    requires forall k :: j <= k < e ==> IsAsciiLetter(s[k])
    requires e < |s| && !IsAsciiLetter(s[e])
    ensures LetterEnd(s, j) == e
    decreases e - j
  {
    if j < e { LetterEndIs(s, j + 1, e); }
  }

  /** A run without `)` followed by `)` is exactly what `[^\)]+` consumes. */
  lemma {:induction false} PayloadEndIs(s: string, j: nat, e: nat)
    requires j <= e < |s|
    requires forall k :: j <= k < e ==> s[k] != ')'
    requires s[e] == ')'
    ensures PayloadEnd(s, j) == e
    decreases e - j
  {
    if j < e { PayloadEndIs(s, j + 1, e); }
  }

  // ---------------------------------------------------------------------------
  // The matcher finds exactly the first match

  /** What RestAt finds is the rest of a match. */
  lemma RestAtSound(s: string, i: nat, a: nat)
    requires i + 2 <= |s| && s[i] == '!' && s[i + 1] == '['
    requires NoNewlineIn(s, i + 2, a)
    ensures RestAt(s, a).Some? ==> IsImageMatch(s, ImageMatch(i, a, RestAt(s, a).value.0, RestAt(s, a).value.1))
  {
    if RestAt(s, a).Some? {
      LetterRun(s, a + |UriHead|);
      var f := LetterEnd(s, a + |UriHead|);
      PayloadRun(s, f + |Base64Marker|);
    }
  }

  /** Once the alt text is fixed, the rest of the pattern can match in one way only. */
  lemma RestAtComplete(s: string, m: ImageMatch)
    requires IsImageMatch(s, m)
    ensures RestAt(s, m.altEnd) == Some((m.fmtEnd, m.dataEnd))
  {
    assert s[m.fmtEnd] == Base64Marker[0];
    LetterEndIs(s, m.altEnd + |UriHead|, m.fmtEnd);
    PayloadEndIs(s, m.fmtEnd + |Base64Marker|, m.dataEnd);
  }

  lemma {:induction false} AltFromSound(s: string, i: nat, a: nat)
    requires i + 2 <= |s| && s[i] == '!' && s[i + 1] == '['
    requires NoNewlineIn(s, i + 2, a)
    ensures AltFrom(s, i, a).Some? ==>
      var m := AltFrom(s, i, a).value; IsImageMatch(s, m) && m.start == i && a <= m.altEnd
    decreases |s| - a
  {
    RestAtSound(s, i, a);
    if RestAt(s, a).None? && a < |s| && s[a] != '\n' {
      AltFromSound(s, i, a + 1);
    }
  }

  /** The lazy alt text: no match at the same start has a shorter one. */
  lemma {:induction false} AltFromShortest(s: string, a: nat, m: ImageMatch)
    requires IsImageMatch(s, m) && m.start + 2 <= a <= m.altEnd
    ensures AltFrom(s, m.start, a).Some? && AltFrom(s, m.start, a).value.altEnd <= m.altEnd
    decreases m.altEnd - a
  {
    RestAtComplete(s, m);
    if RestAt(s, a).None? {
      AltFromShortest(s, a + 1, m);
    }
  }

  lemma {:induction false} FindImageSound(s: string, from: nat)
    ensures FindImage(s, from).Some? ==>
      var m := FindImage(s, from).value; IsImageMatch(s, m) && from <= m.start
    decreases |s| - from
  {
    if from < |s| {
      if ImageAt(s, from).Some? {
        AltFromSound(s, from, from + 2);
      } else {
        FindImageSound(s, from + 1);
      }
    }
  }

  /** The search from `from` stops at `p` at the latest when the pattern matches at `p`. */
  lemma {:induction false} FindImageReaches(s: string, from: nat, p: nat)
    requires from <= p && ImageAt(s, p).Some?
    ensures FindImage(s, from).Some? && FindImage(s, from).value.start <= p
    ensures FindImage(s, from).value.start == p ==> FindImage(s, from) == ImageAt(s, p)
    decreases p - from
  {
    if from < p && ImageAt(s, from).None? {
      FindImageReaches(s, from + 1, p);
    }
  }

  /** Every match from `from` on is found, or one to its left, or a shorter one at its start. */
  lemma FindImageComplete(s: string, from: nat, m: ImageMatch)
    requires IsImageMatch(s, m) && from <= m.start
    ensures FindImage(s, from).Some?
    ensures var r := FindImage(s, from).value;
      r.start < m.start || (r.start == m.start && r.altEnd <= m.altEnd)
  {
    AltFromShortest(s, m.start + 2, m);
    assert ImageAt(s, m.start) == AltFrom(s, m.start, m.start + 2);
    FindImageReaches(s, from, m.start);
  }

  /**
   * `re.search` finds the first match, and finds one whenever the text holds
   * a match at all.
   */
  lemma FindImageIsFirst(s: string)
    ensures FindImage(s, 0).Some? ==> IsFirstMatch(s, FindImage(s, 0).value)
    ensures FindImage(s, 0).None? <==> forall m :: !IsImageMatch(s, m)
  {
    FindImageSound(s, 0);
    forall m | IsImageMatch(s, m)
      ensures FindImage(s, 0).Some?
      ensures var r := FindImage(s, 0).value; r.start < m.start || (r.start == m.start && r.altEnd <= m.altEnd)
    {
      FindImageComplete(s, 0, m);
    }
  }

  /** The first match is unique: its other cuts follow from its start and alt end. */
  lemma FirstMatchUnique(s: string, m1: ImageMatch, m2: ImageMatch)
    requires IsFirstMatch(s, m1) && IsFirstMatch(s, m2)
    ensures m1 == m2
  {
    RestAtComplete(s, m1);
    RestAtComplete(s, m2);
  }

  // ---------------------------------------------------------------------------
  // `str.replace(old, "", 1)`

  /** The first position from `from` on where `t` occurs in `s`. */
  function FirstOccurrence(s: string, t: string, from: nat): (r: Option<nat>)
    ensures r.Some? ==> from <= r.value && r.value + |t| <= |s|
    decreases |s| - from
  {
    if from + |t| > |s| then None
    else if LiteralAt(s, from, t) then Some(from)
    else FirstOccurrence(s, t, from + 1)
  }

  /** `s.replace(t, "", 1)`: the first occurrence of `t` deleted. */
  function RemoveFirst(s: string, t: string): string {
    match FirstOccurrence(s, t, 0)
    case Some(j) => s[..j] + s[j + |t|..]
    case None => s
  }

  /** The search returns an occurrence with none before it. */
  lemma {:induction false} FirstOccurrenceIs(s: string, t: string, from: nat, j: nat)
    requires from <= j && LiteralAt(s, j, t)
    requires forall k :: from <= k < j ==> !LiteralAt(s, k, t)
    ensures FirstOccurrence(s, t, from) == Some(j)
    decreases j - from
  {
    if from < j {
      FirstOccurrenceIs(s, t, from + 1, j);
    }
  }

  /** A match's text stands at the match's start. */
  lemma TextAtStart(s: string, m: ImageMatch)
    requires IsImageMatch(s, m)
    ensures LiteralAt(s, m.start, MatchedText(s, m))
  {
  }

  // Two copies of `t` stand at `lo` and `j`: what holds of the first holds of the second.

  lemma CopyNoNewline(s: string, t: string, lo: nat, j: nat, a: nat, b: nat)
    requires LiteralAt(s, lo, t) && LiteralAt(s, j, t) && lo <= a && b <= lo + |t|
    requires NoNewlineIn(s, a, b)
    ensures NoNewlineIn(s, a - lo + j, b - lo + j)
  {
    forall k | a - lo + j <= k < b - lo + j ensures s[k] != '\n' {
      var i := k - j;
      assert s[j + i] == t[i] == s[lo + i];
    }
  }

  lemma CopyLetters(s: string, t: string, lo: nat, j: nat, a: nat, b: nat)
    requires LiteralAt(s, lo, t) && LiteralAt(s, j, t) && lo <= a && b <= lo + |t|
    requires LettersIn(s, a, b)
    ensures LettersIn(s, a - lo + j, b - lo + j)
  {
    forall k | a - lo + j <= k < b - lo + j ensures IsAsciiLetter(s[k]) {
      var i := k - j;
      assert s[j + i] == t[i] == s[lo + i];
    }
  }

  lemma CopyNoParen(s: string, t: string, lo: nat, j: nat, a: nat, b: nat)
    requires LiteralAt(s, lo, t) && LiteralAt(s, j, t) && lo <= a && b <= lo + |t|
    requires NoParenIn(s, a, b)
    ensures NoParenIn(s, a - lo + j, b - lo + j)
  {
    forall k | a - lo + j <= k < b - lo + j ensures s[k] != ')' {
      var i := k - j;
      assert s[j + i] == t[i] == s[lo + i];
    }
  }

  lemma CopyLiteral(s: string, t: string, lo: nat, j: nat, a: nat, u: string)
    requires LiteralAt(s, lo, t) && LiteralAt(s, j, t) && lo <= a && a + |u| <= lo + |t|
    requires LiteralAt(s, a, u)
    ensures LiteralAt(s, a - lo + j, u)
  {
    forall k | 0 <= k < |u| ensures s[a - lo + j + k] == u[k] {
      var i := a - lo + k;
      assert s[j + i] == t[i] == s[lo + i];
    }
  }

  lemma CopyHead(s: string, t: string, lo: nat, j: nat, altEnd: nat, altEnd': nat)
    requires LiteralAt(s, lo, t) && LiteralAt(s, j, t) && altEnd + |UriHead| <= lo + |t|
    requires ImageHead(s, lo, altEnd) && altEnd' == altEnd - lo + j
    ensures ImageHead(s, j, altEnd')
  {
    assert s[j + 0] == t[0] == s[lo + 0] && s[j + 1] == t[1] == s[lo + 1];
    CopyNoNewline(s, t, lo, j, lo + 2, altEnd);
    CopyLiteral(s, t, lo, j, altEnd, UriHead);
  }

  lemma CopyTail(s: string, t: string, lo: nat, j: nat, fmtStart: nat, fmtEnd: nat, dataEnd: nat,
                 fmtStart': nat, fmtEnd': nat, dataEnd': nat)
    requires LiteralAt(s, lo, t) && LiteralAt(s, j, t) && lo <= fmtStart && dataEnd < lo + |t|
    requires ImageTail(s, fmtStart, fmtEnd, dataEnd)
    requires fmtStart' == fmtStart - lo + j && fmtEnd' == fmtEnd - lo + j && dataEnd' == dataEnd - lo + j
    ensures ImageTail(s, fmtStart', fmtEnd', dataEnd')
  {
    assert s[j + (dataEnd - lo)] == t[dataEnd - lo] == s[lo + (dataEnd - lo)];
    CopyLetters(s, t, lo, j, fmtStart, fmtEnd);
    CopyLiteral(s, t, lo, j, fmtEnd, Base64Marker);
    CopyNoParen(s, t, lo, j, fmtEnd + |Base64Marker|, dataEnd);
  }

  /** The regex has no anchor, so a copy of a match's text anywhere is a match there too. */
  lemma CopyIsMatch(s: string, m: ImageMatch, t: string, j: nat, c: ImageMatch)
    requires IsImageMatch(s, m) && m.dataEnd < m.start + |t|
    requires LiteralAt(s, m.start, t) && LiteralAt(s, j, t)
    requires c == ImageMatch(j, m.altEnd - m.start + j, m.fmtEnd - m.start + j, m.dataEnd - m.start + j)
    ensures IsImageMatch(s, c)
  {
    CopyHead(s, t, m.start, j, m.altEnd, c.altEnd);
    CopyTail(s, t, m.start, j, m.altEnd + |UriHead|, m.fmtEnd, m.dataEnd, c.altEnd + |UriHead|, c.fmtEnd, c.dataEnd);
  }

  /** The first occurrence of the first match's text is that match itself. */
  lemma FirstMatchOccursFirst(s: string, m: ImageMatch)
    requires IsFirstMatch(s, m)
    ensures FirstOccurrence(s, MatchedText(s, m), 0) == Some(m.start)
  {
    var t := MatchedText(s, m);
    TextAtStart(s, m);
    forall k | 0 <= k < m.start
      ensures !LiteralAt(s, k, t)
    {
      if LiteralAt(s, k, t) {
        CopyIsMatch(s, m, t, k, ImageMatch(k, m.altEnd - m.start + k, m.fmtEnd - m.start + k, m.dataEnd - m.start + k));
        assert false;
      }
    }
    FirstOccurrenceIs(s, t, 0, m.start);
  }

  /** `re.search` reports the first match. */
  lemma FirstMatchFound(s: string, m: ImageMatch)
    requires IsFirstMatch(s, m)
    ensures FindImage(s, 0) == Some(m)
  {
    FindImageIsFirst(s);
    FirstMatchUnique(s, m, FindImage(s, 0).value);
  }

  lemma RemoveFirstAt(s: string, t: string, j: nat)
    requires FirstOccurrence(s, t, 0) == Some(j)
    ensures j + |t| <= |s| && RemoveFirst(s, t) == s[..j] + s[j + |t|..]
  {
  }

  /** Deleting the first occurrence of the first match's text cuts out exactly that match. */
  lemma RemoveFirstMatch(s: string, m: ImageMatch)
    requires IsFirstMatch(s, m)
    ensures RemoveFirst(s, MatchedText(s, m)) == s[..m.start] + s[m.dataEnd + 1..]
  {
    var t := MatchedText(s, m);
    FirstMatchOccursFirst(s, m);
    RemoveFirstAt(s, t, m.start);
    assert m.start + |t| == m.dataEnd + 1;
  }

  // ---------------------------------------------------------------------------
  // The extraction

  /** The cover image file: its path and the decoded bytes written there. */
  datatype Cover = Cover(path: string, image: Bytes)

  /** The pair the function returns: the cover written, if any, and the markdown text. */
  datatype Extraction = Extraction(cover: Option<Cover>, text: string)

  /** `os.path.join(output_dir, f"cover_{timestamp}.{img_fmt}")`. */
  function CoverPath(outputDir: string, timestamp: string, format: string): string {
    Paths.Join(outputDir, "cover_" + timestamp + "." + format)
  }

  /**
   * Lines 60-91, with the timestamp, base64 decoding and whether the cover
   * file can be opened for writing given as parameters.
   */
  function ExtractFirstImageAsCover(md: string, outputDir: string, timestamp: string,
                                    decode: string -> Option<Bytes>, writable: bool): Extraction
  {
    FindImageSound(md, 0);
    match FindImage(md, 0)
    case None => Extraction(None, md)
    case Some(m) =>
      if !writable then Extraction(None, md)
      else match decode(Payload(md, m))
        case None => Extraction(None, md)
        case Some(bytes) =>
          Extraction(Some(Cover(CoverPath(outputDir, timestamp, ImageFormat(md, m)), bytes)),
                     RemoveFirst(md, MatchedText(md, m)))
  }

  /** Whenever no cover comes back, the text comes back unchanged; a file that cannot be opened gives no cover. */
  lemma FailureLeavesText(md: string, outputDir: string, timestamp: string,
                          decode: string -> Option<Bytes>, writable: bool)
    ensures var r := ExtractFirstImageAsCover(md, outputDir, timestamp, decode, writable);
      && (r.cover.None? ==> r.text == md)
      && (!writable ==> r.cover.None?)
  {
  }

  /** A text without a data-URI image gives no cover and comes back unchanged. */
  lemma NoImageNoCover(md: string, outputDir: string, timestamp: string,
                       decode: string -> Option<Bytes>, writable: bool)
    requires forall m :: !IsImageMatch(md, m)
    ensures ExtractFirstImageAsCover(md, outputDir, timestamp, decode, writable) == Extraction(None, md)
  {
    FindImageIsFirst(md);
  }

  /**
   * With the first match `m` found, the result depends on the decoding only:
   * a payload that does not decode gives no cover and the text unchanged; one
   * that does is written to `cover_<timestamp>.<fmt>`, and exactly the text of
   * `m` is cut out, everything after it (later copies included) kept.
   */
  lemma ExtractFirstMatch(md: string, outputDir: string, timestamp: string,
                          decode: string -> Option<Bytes>, m: ImageMatch)
    requires IsFirstMatch(md, m)
    ensures var r := ExtractFirstImageAsCover(md, outputDir, timestamp, decode, true);
      match decode(Payload(md, m))
      case None => r == Extraction(None, md)
      case Some(bytes) =>
        r == Extraction(Some(Cover(CoverPath(outputDir, timestamp, ImageFormat(md, m)), bytes)),
                        md[..m.start] + md[m.dataEnd + 1..])
  {
    FirstMatchFound(md, m);
    RemoveFirstMatch(md, m);
  }
}
