/**
 * The image relinker of `ocr_pdf_to_markdown` (main.py, lines 39-51): every
 * placeholder `(<id>)` or `(<id>.<ext>)` the OCR service left in a page's
 * markdown is rewritten to `(<uri>)`, where the URI carries the image's base64
 * data inline.  Python's `re.sub` with the pattern `\(<id>(\.[a-z]{3,4})?\)`
 * is modelled by a hand-written matcher and a left-to-right scan.
 */
module ImageRelinker {
  import opened Wrappers

  /** An image the OCR service embedded in a page: its id and its base64 data, possibly absent. */
  datatype Image = Image(id: string, base64: Option<string>)

  /** One page of OCR output: its markdown text and the images it refers to. */
  datatype Page = Page(markdown: string, images: seq<Image>)

  const DataScheme: string := "data:"
  const JpegDataPrefix: string := "data:image/jpeg;base64,"

  /**
   * The inline URI for an image's base64 string: the string itself when it is
   * already a data URI, otherwise the string behind the JPEG data prefix.
   */
  function ImageUri(b64: string): (uri: string)
    ensures DataScheme <= uri
    ensures |b64| <= |uri| && uri[|uri| - |b64|..] == b64
    ensures uri == b64 <==> DataScheme <= b64
    ensures uri != b64 ==> uri == JpegDataPrefix + b64
  {
    if DataScheme <= b64 then b64 else JpegDataPrefix + b64
  }

  predicate IsLowerAscii(c: char) {
    'a' <= c <= 'z'
  }

  /**
   * The language of the pattern `\(<id>(\.[a-z]{3,4})?\)` with the id taken
   * literally: `(`, the id, an optional `.` with three or four lower-case
   * ASCII letters, and `)`.
   */
  predicate IsPlaceholder(t: string, id: string) {
    && |t| >= |id| + 2
    && t[0] == '('
    && t[1..|id| + 1] == id
    && t[|t| - 1] == ')'
    && var ext := t[|id| + 1..|t| - 1];
       (ext == [] || (ext[0] == '.' && 4 <= |ext| <= 5 && forall k :: 1 <= k < |ext| ==> IsLowerAscii(ext[k])))
  }

  /** `.` followed by exactly `n` lower-case letters and `)` at position `j`. */
  predicate ExtensionAndCloseAt(s: string, j: nat, n: nat) {
    && j + n + 2 <= |s|
    && s[j] == '.'
    && (forall k :: j + 1 <= k <= j + n ==> IsLowerAscii(s[k]))
    && s[j + n + 1] == ')'
  }

  /**
   * Length of the placeholder match at the start of `s`, in the order the regex
   * engine tries it: the optional group first with four letters, then three,
   * then without the group.
   */
  function PlaceholderLength(s: string, id: string): (r: Option<nat>)
    ensures r.Some? ==> |id| + 2 <= r.value <= |s| && IsPlaceholder(s[..r.value], id)
  {
    var j := |id| + 1;
    if !(j <= |s| && s[0] == '(' && s[1..j] == id) then None
    else if ExtensionAndCloseAt(s, j, 4) then
      PlaceholderWithExtension(s, id, 4);
      Some(j + 6)
    else if ExtensionAndCloseAt(s, j, 3) then
      PlaceholderWithExtension(s, id, 3);
      Some(j + 5)
    else if j < |s| && s[j] == ')' then
      PlaceholderWithoutExtension(s, id);
      Some(j + 1)
    else None
  }

  lemma PlaceholderWithoutExtension(s: string, id: string)
    requires |id| + 1 < |s| && s[0] == '(' && s[1..|id| + 1] == id && s[|id| + 1] == ')'
    ensures IsPlaceholder(s[..|id| + 2], id)
  {
    var t := s[..|id| + 2];
    assert t[1..|id| + 1] == s[1..|id| + 1];
    assert t[|id| + 1..|t| - 1] == [];
  }

  lemma PlaceholderWithExtension(s: string, id: string, n: nat)
    requires n == 3 || n == 4
    requires |id| + 1 <= |s| && s[0] == '(' && s[1..|id| + 1] == id
    requires ExtensionAndCloseAt(s, |id| + 1, n)
    ensures IsPlaceholder(s[..|id| + n + 3], id)
  {
    var j := |id| + 1;
    var t := s[..j + n + 2];
    assert t[1..j] == s[1..j];
    var ext := t[j..|t| - 1];
    assert forall k :: 0 <= k < |ext| ==> ext[k] == s[j + k];
  }

  /** The matcher finds every placeholder that starts the string, with its exact length. */
  lemma PlaceholderRecognised(s: string, id: string, n: nat)
    requires n <= |s| && IsPlaceholder(s[..n], id)
    ensures PlaceholderLength(s, id) == Some(n)
  {
    var j := |id| + 1;
    var t := s[..n];
    assert s[1..j] == t[1..j];
    var ext := t[j..n - 1];
    if ext == [] {
      assert s[j] == ')';
    } else if |ext| == 5 {
      assert forall k :: j + 1 <= k <= j + 4 ==> s[k] == ext[k - j];
      assert ExtensionAndCloseAt(s, j, 4);
    } else {
      assert |ext| == 4;
      assert forall k :: j + 1 <= k <= j + 3 ==> s[k] == ext[k - j];
      assert s[j + 4] == ')';
      assert !ExtensionAndCloseAt(s, j, 4);
      assert ExtensionAndCloseAt(s, j, 3);
    }
  }

  /** A placeholder for `id` of length `n` stands in `s` at position `k`. */
  predicate PlaceholderAt(s: string, id: string, k: nat, n: nat) {
    k + n <= |s| && IsPlaceholder(s[k..k + n], id)
  }

  /** Where no placeholder starts the text, the matcher reports none. */
  lemma NotAtStart(s: string, id: string)
    requires forall m: nat :: !PlaceholderAt(s, id, 0, m)
    ensures PlaceholderLength(s, id).None?
  {
    var r := PlaceholderLength(s, id);
    var n := if r.Some? then r.value else 0;
    assert r.Some? ==> s[0..0 + n] == s[..n];
    assert !PlaceholderAt(s, id, 0, n);
  }

  /** No placeholder for `id` starts anywhere in `s`. */
  ghost predicate NoPlaceholder(s: string, id: string) {
    forall k: nat, n: nat :: !PlaceholderAt(s, id, k, n)
  }

  /** `re.sub`: every leftmost, non-overlapping placeholder is replaced; the scan resumes after each. */
  function ReplacePlaceholders(s: string, id: string, replacement: string): (r: string)
    ensures forall c :: c in r ==> c in s || c in replacement
    decreases |s|
  {
    if s == [] then []
    else match PlaceholderLength(s, id)
      case Some(n) => replacement + ReplacePlaceholders(s[n..], id, replacement)
      case None => [s[0]] + ReplacePlaceholders(s[1..], id, replacement)
  }

  /** Text without a placeholder for the id comes back unchanged. */
  lemma {:induction false} NoPlaceholderUnchanged(s: string, id: string, replacement: string)
    requires NoPlaceholder(s, id)
    ensures ReplacePlaceholders(s, id, replacement) == s
    decreases |s|
  {
    if s != [] {
      NotAtStart(s, id);
      forall k: nat, n: nat
        ensures !PlaceholderAt(s[1..], id, k, n)
      {
        if k + n <= |s[1..]| {
          assert s[1..][k..k + n] == s[k + 1..k + 1 + n];
          assert !PlaceholderAt(s, id, k + 1, n);
        }
      }
      NoPlaceholderUnchanged(s[1..], id, replacement);
    }
  }

  /** Dropping the first character moves every placeholder one position to the left. */
  lemma PlaceholdersShift(s: string, id: string, i: nat, n: nat)
    requires 0 < i
    requires PlaceholderAt(s, id, i, n)
    requires forall k: nat, m: nat :: k < i ==> !PlaceholderAt(s, id, k, m)
    ensures PlaceholderAt(s[1..], id, i - 1, n)
    ensures forall k: nat, m: nat :: k < i - 1 ==> !PlaceholderAt(s[1..], id, k, m)
  {
    var t := s[1..];
    assert t[i - 1..i - 1 + n] == s[i..i + n];
    forall k: nat, m: nat | k < i - 1
      ensures !PlaceholderAt(t, id, k, m)
    {
      if k + m <= |t| {
        assert t[k..k + m] == s[k + 1..k + 1 + m];
        assert !PlaceholderAt(s, id, k + 1, m);
      }
    }
  }

  /** Putting the first character back in front of the result for the rest of the text. */
  lemma PrefixStep(s: string, i: nat, n: nat, replacement: string, rest: string)
    requires 0 < i && i + n <= |s|
    ensures [s[0]] + (s[1..][..i - 1] + replacement + rest) == s[..i] + replacement + rest
    ensures s[1..][i - 1 + n..] == s[i + n..]
  {
    assert s[..i] == [s[0]] + s[1..][..i - 1];
  }

  /**
   * The leftmost placeholder is replaced and the scan goes on right after it:
   * together with NoPlaceholderUnchanged this determines the whole result.
   */
  lemma {:induction false} LeftmostPlaceholderReplaced(s: string, id: string, replacement: string, i: nat, n: nat)
    requires PlaceholderAt(s, id, i, n)
    requires forall k: nat, m: nat :: k < i ==> !PlaceholderAt(s, id, k, m)
    ensures ReplacePlaceholders(s, id, replacement)
         == s[..i] + replacement + ReplacePlaceholders(s[i + n..], id, replacement)
    decreases i
  {
    if i == 0 {
      ReplacedAtStart(s, id, replacement, n);
    } else {
      NotAtStart(s, id);
      PlaceholdersShift(s, id, i, n);
      LeftmostPlaceholderReplaced(s[1..], id, replacement, i - 1, n);
      PrefixStep(s, i, n, replacement, ReplacePlaceholders(s[i + n..], id, replacement));
    }
  }

  /** A placeholder at the very start is replaced first. */
  lemma ReplacedAtStart(s: string, id: string, replacement: string, n: nat)
    requires PlaceholderAt(s, id, 0, n)
    ensures ReplacePlaceholders(s, id, replacement) == s[..0] + replacement + ReplacePlaceholders(s[n..], id, replacement)
  {
    assert s[0..0 + n] == s[..n];
    PlaceholderRecognised(s, id, n);
    assert s[..0] + replacement == replacement;
  }

  /** The text a placeholder is rewritten to: the image's URI in parentheses. */
  function LinkText(b64: string): string {
    "(" + ImageUri(b64) + ")"
  }

  /** One image of a page: its placeholders become `(<uri>)` when its data is non-empty. */
  function RelinkImage(content: string, img: Image): (r: string)
    ensures r != content ==> img.base64.Some? && img.base64.value != ""
    ensures forall c :: c in r ==> c in content || (img.base64.Some? && c in LinkText(img.base64.value))
  {
    if img.base64.Some? && img.base64.value != "" then ReplacePlaceholders(content, img.id, LinkText(img.base64.value))
    else content
  }

  /** An image without data, or whose id no placeholder names, leaves the text as it is. */
  lemma RelinkImageUnchanged(content: string, img: Image)
    requires img.base64.None? || img.base64.value == "" || NoPlaceholder(content, img.id)
    ensures RelinkImage(content, img) == content
  {
    if img.base64.Some? && img.base64.value != "" {
      NoPlaceholderUnchanged(content, img.id, LinkText(img.base64.value));
    }
  }

  /**
   * An image with data rewrites its leftmost placeholder, `(id)` or `(id.ext)`,
   * to `(uri)` and carries on with the rest of the text.
   */
  lemma RelinkImageReplaces(content: string, img: Image, i: nat, n: nat)
    requires img.base64.Some? && img.base64.value != ""
    requires PlaceholderAt(content, img.id, i, n)
    requires forall k: nat, m: nat :: k < i ==> !PlaceholderAt(content, img.id, k, m)
    ensures RelinkImage(content, img) == content[..i] + LinkText(img.base64.value) + RelinkImage(content[i + n..], img)
  {
    LeftmostPlaceholderReplaced(content, img.id, LinkText(img.base64.value), i, n);
  }

  /** `c` occurs in the link text of one of the images that carry data. */
  predicate InSomeLink(c: char, images: seq<Image>) {
    exists j :: 0 <= j < |images| && images[j].base64.Some? && images[j].base64.value != "" &&
      c in LinkText(images[j].base64.value)
  }

  /** The page's images, applied one after another in list order. */
  function RelinkImages(content: string, images: seq<Image>): (r: string)
    ensures forall c :: c in r ==> c in content || InSomeLink(c, images)
    decreases |images|
  {
    if images == [] then content
    else
      var prefix, last := images[..|images| - 1], images[|images| - 1];
      var before := RelinkImages(content, prefix);
      assert forall c :: InSomeLink(c, prefix) ==> InSomeLink(c, images) by {
        forall c | InSomeLink(c, prefix) ensures InSomeLink(c, images) {
          var j :| 0 <= j < |prefix| && prefix[j].base64.Some? && prefix[j].base64.value != "" &&
            c in LinkText(prefix[j].base64.value);
          assert images[j] == prefix[j];
        }
      }
      RelinkImage(before, last)
  }

  /** A page none of whose images carries data keeps its markdown verbatim. */
  lemma {:induction false} ImagesWithoutDataUnchanged(content: string, images: seq<Image>)
    requires forall k :: 0 <= k < |images| ==> images[k].base64.None? || images[k].base64.value == ""
    ensures RelinkImages(content, images) == content
    decreases |images|
  {
    if images != [] {
      ImagesWithoutDataUnchanged(content, images[..|images| - 1]);
      RelinkImageUnchanged(content, images[|images| - 1]);
    }
  }

  /** The per-page loop: `content` is reassigned once per image. */
  method RelinkPage(page: Page) returns (content: string)
    ensures content == RelinkImages(page.markdown, page.images)
  {
    content := page.markdown;
    var i := 0;
    while i < |page.images|
      invariant 0 <= i <= |page.images|
      invariant content == RelinkImages(page.markdown, page.images[..i])
    {
      assert page.images[..i + 1][..i] == page.images[..i];
      content := RelinkImage(content, page.images[i]);
      i := i + 1;
    }
    assert page.images[..i] == page.images;
  }
}
