/**
 * The page-number stripper of `ocr_pdf_to_markdown` (main.py, line 54): a
 * multi-line `re.sub` that deletes every match of
 *
 *   ^ \s* (?:Page\s*)? \d+ (?:\s*of\s*\d+)? \s* $
 *
 * A match starts at a line start and ends at a line end; since `\s` also
 * matches a newline, one match may run over several lines.  Replacing each
 * match by the empty string deletes it, so the model computes, for every
 * character, whether it falls inside a match of the left-to-right scan, and
 * keeps the others.
 *
 * The greedy quantifiers never have to give characters back except the last
 * `\s*` before `$`: each repeated class is disjoint from the first character
 * of what follows it (a space never starts `Page`, `of` or a digit, a digit
 * never starts `of`, a space or a line end).  So the matcher takes maximal runs
 * (SpaceEnd, DigitEnd) and backtracks only at the end (LastLineEnd).
 */
module PageNumbers {
  import opened Wrappers

  /** Python's `\s` on text: exactly the characters for which `str.isspace()` holds. */
  predicate IsSpace(c: char) {
    || ('\U{9}' <= c <= '\U{D}')
    || ('\U{1C}' <= c <= ' ')
    || c == '\U{85}' || c == '\U{A0}' || c == '\U{1680}'
    || ('\U{2000}' <= c <= '\U{200A}')
    || c == '\U{2028}' || c == '\U{2029}' || c == '\U{202F}' || c == '\U{205F}' || c == '\U{3000}'
  }

  /** Python's `\d` on text, for the ASCII, Arabic-Indic and Extended Arabic-Indic digits. */
  predicate IsDigit(c: char) {
    ('0' <= c <= '9') || ('\U{660}' <= c <= '\U{669}') || ('\U{6F0}' <= c <= '\U{6F9}')
  }

  /** The only characters a match can contain: spaces, digits and the letters of `Page` and `of`. */
  predicate IsFooterChar(c: char) {
    IsSpace(c) || IsDigit(c) || c in "Pageof"
  }

  /** `^` in multi-line mode. */
  predicate AtLineStart(s: string, i: nat) {
    i == 0 || (0 < i <= |s| && s[i - 1] == '\n')
  }

  /** `$` in multi-line mode. */
  predicate AtLineEnd(s: string, p: nat) {
    p == |s| || (p < |s| && s[p] == '\n')
  }

  /** The literal `Page` at `i`. */
  predicate PageAt(s: string, i: nat) {
    i + 4 <= |s| && s[i] == 'P' && s[i + 1] == 'a' && s[i + 2] == 'g' && s[i + 3] == 'e'
  }

  /** The literal `of` at `i`. */
  predicate OfAt(s: string, i: nat) {
    i + 2 <= |s| && s[i] == 'o' && s[i + 1] == 'f'
  }

  /** `[lo, hi)` is a (possibly empty) run of spaces: what a `\s*` may consume. */
  predicate SpacesIn(s: string, lo: nat, hi: nat) {
    lo <= hi <= |s| && forall k :: lo <= k < hi ==> IsSpace(s[k])
  }

  /** `[lo, hi)` is a non-empty run of digits: what a `\d+` may consume. */
  predicate DigitsIn(s: string, lo: nat, hi: nat) {
    lo < hi <= |s| && forall k :: lo <= k < hi ==> IsDigit(s[k])
  }

  // ---------------------------------------------------------------------------
  // The pattern's language, as cuts in the text

  /** Where the optional group `\s*of\s*\d+` puts `of` and its number. */
  datatype TotalCuts = TotalCuts(ofAt: nat, numStart: nat, numEnd: nat)

  /**
   * One match, split along the pattern: it runs from `start` to `end`; the
   * leading spaces stop at `Page` when `page` gives its position, else at the
   * number; the number is `[numStart, numEnd)`; `total` is the optional group.
   */
  datatype Match = Match(start: nat, page: Option<nat>, numStart: nat, numEnd: nat, total: Option<TotalCuts>, end: nat)

  /** `(?:\s*of\s*\d+)?\s*$` from `k` to `e`, the group present exactly when `total` is. */
  predicate TailMatch(s: string, k: nat, total: Option<TotalCuts>, e: nat) {
    && (match total
        case None => SpacesIn(s, k, e)
        case Some(t) =>
          && SpacesIn(s, k, t.ofAt) && OfAt(s, t.ofAt)
          && SpacesIn(s, t.ofAt + 2, t.numStart) && DigitsIn(s, t.numStart, t.numEnd)
          && SpacesIn(s, t.numEnd, e))
    && AtLineEnd(s, e)
  }

  /** Where the leading `\s*` stops. */
  function LeadEnd(m: Match): nat {
    if m.page.Some? then m.page.value else m.numStart
  }

  /** The whole pattern: `m` describes a text of its language standing between a line start and a line end. */
  predicate IsMatch(s: string, m: Match) {
    && AtLineStart(s, m.start)
    && SpacesIn(s, m.start, LeadEnd(m))
    && (m.page.Some? ==> PageAt(s, m.page.value) && SpacesIn(s, m.page.value + 4, m.numStart))
    && DigitsIn(s, m.numStart, m.numEnd)
    && TailMatch(s, m.numEnd, m.total, m.end)
  }

  // ---------------------------------------------------------------------------
  // The matcher

  /** What a greedy `\s*` from `j` consumes: the end of the run of spaces. */
  function SpaceEnd(s: string, j: nat): (e: nat)
    requires j <= |s|
    ensures j <= e <= |s|
    ensures e == |s| || !IsSpace(s[e])
    decreases |s| - j
  {
    if j < |s| && IsSpace(s[j]) then SpaceEnd(s, j + 1) else j
  }

  /** What a greedy `\d*` from `j` consumes: the end of the run of digits. */
  function DigitEnd(s: string, j: nat): (e: nat)
    requires j <= |s|
    ensures j <= e <= |s|
    ensures e == |s| || !IsDigit(s[e])
    decreases |s| - j
  {
    if j < |s| && IsDigit(s[j]) then DigitEnd(s, j + 1) else j
  }

  /**
   * `\s*$` after a greedy run of spaces up to `hi`: the run gives characters
   * back one at a time until `$` holds, so the result is the last line end in `[lo, hi]`.
   */
  function LastLineEnd(s: string, lo: nat, hi: nat): (r: Option<nat>)
    requires lo <= hi <= |s|
    ensures r.Some? ==> lo <= r.value <= hi && AtLineEnd(s, r.value)
    ensures r.Some? ==> forall q :: r.value < q <= hi ==> !AtLineEnd(s, q)
    ensures r.None? ==> forall q :: lo <= q <= hi ==> !AtLineEnd(s, q)
    decreases hi
  {
    if AtLineEnd(s, hi) then Some(hi)
    else if hi == lo then None
    else LastLineEnd(s, lo, hi - 1)
  }

  /** The trailing `\s*$` at `c`: where it ends. */
  function TrailEnd(s: string, c: nat): Option<nat>
    requires c <= |s|
  {
    LastLineEnd(s, c, SpaceEnd(s, c))
  }

  /** The group `\s*of\s*\d+` at `k` followed by `\s*$`: the group's cuts and the end. */
  function TotalAt(s: string, k: nat): Option<(TotalCuts, nat)>
    requires k <= |s|
  {
    var o := SpaceEnd(s, k);
    if !OfAt(s, o) then None
    else
      var b := SpaceEnd(s, o + 2);
      var c := DigitEnd(s, b);
      if c == b then None
      else match TrailEnd(s, c)
        case Some(e) => Some((TotalCuts(o, b, c), e))
        case None => None
  }

  /** `(?:\s*of\s*\d+)?\s*$` at `k`: the optional group is tried first, then its absence. */
  function TailAt(s: string, k: nat): Option<(Option<TotalCuts>, nat)>
    requires k <= |s|
  {
    match TotalAt(s, k)
    case Some(found) => Some((Some(found.0), found.1))
    case None =>
      match TrailEnd(s, k)
      case Some(e) => Some((None, e))
      case None => None
  }

  /** The match of the whole pattern at position `i`, if there is one. */
  function FooterAt(s: string, i: nat): Option<Match>
    requires i <= |s|
  {
    if !AtLineStart(s, i) then None
    else
      var lead := SpaceEnd(s, i);
      var hasPage := PageAt(s, lead);
      var numStart := if hasPage then SpaceEnd(s, lead + 4) else lead;
      var numEnd := DigitEnd(s, numStart);
      if numEnd == numStart then None
      else match TailAt(s, numEnd)
        case Some(tail) =>
          Some(Match(i, if hasPage then Some(lead) else None, numStart, numEnd, tail.0, tail.1))
        case None => None
  }

  // ---------------------------------------------------------------------------
  // The scan and the replacement

  /** For each character from position `i` on: does it fall inside a match of the `re.sub` scan? */
  function Deleted(s: string, i: nat): (m: seq<bool>)
    requires i <= |s|
    ensures |m| == |s| - i
    decreases |s| - i
  {
    if i == |s| then []
    else match FooterAt(s, i)
      case Some(f) =>
        FooterAtAdvances(s, i);
        seq(f.end - i, _ => true) + Deleted(s, f.end)
      case None => [false] + Deleted(s, i + 1)
  }

  /** Character `k` of `s` lies inside a match of the scan started at position `i`. */
  predicate DeletedFrom(s: string, i: nat, k: nat)
    requires i <= |s|
  {
    i <= k < |s| && Deleted(s, i)[k - i]
  }

  /** Character `k` of `s` lies inside a match: `re.sub` deletes it. */
  predicate IsDeleted(s: string, k: nat) {
    DeletedFrom(s, 0, k)
  }

  /** The characters of `s` whose flag is not set, in order. */
  function Kept(s: string, deleted: seq<bool>): string
    requires |deleted| == |s|
  {
    if s == [] then []
    else (if deleted[0] then [] else [s[0]]) + Kept(s[1..], deleted[1..])
  }

  /** Line 54: every match deleted. */
  function StripPageNumbers(s: string): string {
    Kept(s, Deleted(s, 0))
  }

  /** The characters of `t` outside the footer alphabet, in order. */
  function OtherChars(t: string): string {
    if t == [] then []
    else (if IsFooterChar(t[0]) then [] else [t[0]]) + OtherChars(t[1..])
  }

  // ---------------------------------------------------------------------------
  // Runs

  lemma {:induction false} SpaceRun(s: string, j: nat)
    requires j <= |s|
    ensures SpacesIn(s, j, SpaceEnd(s, j))
    decreases |s| - j
  {
    if j < |s| && IsSpace(s[j]) { SpaceRun(s, j + 1); }
  }

  lemma {:induction false} DigitRun(s: string, j: nat)
    requires j <= |s|
    ensures forall k :: j <= k < DigitEnd(s, j) ==> IsDigit(s[k])
    decreases |s| - j
  {
    if j < |s| && IsDigit(s[j]) { DigitRun(s, j + 1); }
  }

  /** A greedy `\s*` consumes at least any run of spaces. */
  lemma {:induction false} SpaceEndCovers(s: string, j: nat, e: nat)
    requires SpacesIn(s, j, e)
    ensures SpaceEnd(s, j) >= e
    decreases e - j
  {
    if j < e { SpaceEndCovers(s, j + 1, e); }
  }

  /** A run of spaces followed by a non-space is exactly what the greedy `\s*` consumes. */
  lemma SpaceEndIs(s: string, j: nat, e: nat)
    requires SpacesIn(s, j, e) && (e == |s| || !IsSpace(s[e]))
    ensures SpaceEnd(s, j) == e
  {
    SpaceEndCovers(s, j, e);
    SpaceRun(s, j);
  }

  lemma {:induction false} DigitEndIs(s: string, j: nat, e: nat)
    requires j <= e <= |s|
    requires forall k :: j <= k < e ==> IsDigit(s[k])
    requires e == |s| || !IsDigit(s[e])
    ensures DigitEnd(s, j) == e
    decreases e - j
  {
    if j < e { DigitEndIs(s, j + 1, e); }
  }

  // ---------------------------------------------------------------------------
  // Soundness of the matcher

  lemma TrailEndSound(s: string, c: nat)
    requires c <= |s|
    ensures TrailEnd(s, c).Some? ==> SpacesIn(s, c, TrailEnd(s, c).value) && AtLineEnd(s, TrailEnd(s, c).value)
  {
    SpaceRun(s, c);
  }

  lemma TotalAtSound(s: string, k: nat)
    requires k <= |s|
    ensures TotalAt(s, k).Some? ==> TailMatch(s, k, Some(TotalAt(s, k).value.0), TotalAt(s, k).value.1)
  {
    var o := SpaceEnd(s, k);
    if OfAt(s, o) {
      var b := SpaceEnd(s, o + 2);
      var c := DigitEnd(s, b);
      SpaceRun(s, k);
      SpaceRun(s, o + 2);
      DigitRun(s, b);
      TrailEndSound(s, c);
    }
  }

  lemma TailAtSound(s: string, k: nat)
    requires k <= |s|
    ensures TailAt(s, k).Some? ==> TailMatch(s, k, TailAt(s, k).value.0, TailAt(s, k).value.1)
  {
    TotalAtSound(s, k);
    TrailEndSound(s, k);
  }

  /** Soundness: a match found at `i` is a text of the pattern's language, and not empty. */
  lemma FooterAtSound(s: string, i: nat)
    requires i <= |s|
    ensures FooterAt(s, i).Some? ==>
      var m := FooterAt(s, i).value;
      IsMatch(s, m) && m.start == i && i < m.end <= |s|
  {
    if FooterAt(s, i).Some? {
      var m := FooterAt(s, i).value;
      var lead := SpaceEnd(s, i);
      assert LeadEnd(m) == lead || PageAt(s, lead);
      SpaceRun(s, i);
      if PageAt(s, lead) { SpaceRun(s, lead + 4); }
      DigitRun(s, m.numStart);
      TailAtSound(s, m.numEnd);
      TailMatchForward(s, m.numEnd, m.total, m.end);
    }
  }

  /** The tail of a match never ends before it starts. */
  lemma TailMatchForward(s: string, k: nat, total: Option<TotalCuts>, e: nat)
    requires TailMatch(s, k, total, e)
    ensures k <= e
  {
  }

  /** The scan moves forward: a match is never empty. */
  lemma FooterAtAdvances(s: string, i: nat)
    requires i <= |s|
    ensures FooterAt(s, i).Some? ==> i < FooterAt(s, i).value.end <= |s|
  {
    FooterAtSound(s, i);
  }

  // ---------------------------------------------------------------------------
  // Completeness of the matcher

  lemma TrailEndComplete(s: string, c: nat, e: nat)
    requires SpacesIn(s, c, e) && AtLineEnd(s, e)
    ensures TrailEnd(s, c).Some? && TrailEnd(s, c).value >= e
  {
    SpaceEndCovers(s, c, e);
  }

  lemma TotalAtComplete(s: string, k: nat, t: TotalCuts, e: nat)
    requires TailMatch(s, k, Some(t), e)
    ensures TotalAt(s, k).Some? && TotalAt(s, k).value.0 == t && TotalAt(s, k).value.1 >= e
  {
    SpaceEndIs(s, k, t.ofAt);
    SpaceEndIs(s, t.ofAt + 2, t.numStart);
    assert t.numEnd == |s| || !IsDigit(s[t.numEnd]) by {
      if t.numEnd < e {
        assert IsSpace(s[t.numEnd]);
      }
    }
    DigitEndIs(s, t.numStart, t.numEnd);
    TrailEndComplete(s, t.numEnd, e);
  }

  lemma TailAtComplete(s: string, k: nat, total: Option<TotalCuts>, e: nat)
    requires TailMatch(s, k, total, e)
    ensures TailAt(s, k).Some? && TailAt(s, k).value.1 >= e
  {
    if total.Some? {
      TotalAtComplete(s, k, total.value, e);
    } else if TotalAt(s, k).Some? {
      // The group matched after all: its `of` cannot stand among the spaces up to `e`.
      TotalAtSound(s, k);
      var t := TotalAt(s, k).value.0;
      assert !IsSpace(s[t.ofAt]);
    } else {
      TrailEndComplete(s, k, e);
    }
  }

  /**
   * Completeness: wherever a text of the pattern's language stands between a
   * line start and a line end, the matcher finds a match there, at least as
   * long (greediness may carry it further, over following blank lines).
   */
  lemma FooterAtComplete(s: string, m: Match)
    requires IsMatch(s, m)
    ensures FooterAt(s, m.start).Some? && FooterAt(s, m.start).value.end >= m.end
  {
    var lead := LeadEnd(m);
    assert s[m.numStart] != 'P' && !IsSpace(s[m.numStart]);
    SpaceEndIs(s, m.start, lead);
    if m.page.Some? {
      SpaceEndIs(s, lead + 4, m.numStart);
    }
    assert m.numEnd == |s| || !IsDigit(s[m.numEnd]) by {
      if m.numEnd < m.end {
        assert IsSpace(s[m.numEnd]) || s[m.numEnd] == 'o';
      }
    }
    DigitEndIs(s, m.numStart, m.numEnd);
    TailAtComplete(s, m.numEnd, m.total, m.end);
  }

  // ---------------------------------------------------------------------------
  // What the scan deletes

  /** One step of the scan: a match is deleted as a whole and the scan resumes after it. */
  lemma DeletedStep(s: string, i: nat)
    requires i < |s|
    ensures FooterAt(s, i).Some? ==>
      var p := FooterAt(s, i).value.end;
      && i < p <= |s|
      && (forall k :: i <= k < p ==> DeletedFrom(s, i, k))
      && (forall k :: p <= k ==> DeletedFrom(s, i, k) == DeletedFrom(s, p, k))
    ensures FooterAt(s, i).None? ==>
      && !DeletedFrom(s, i, i)
      && (forall k :: i < k ==> DeletedFrom(s, i, k) == DeletedFrom(s, i + 1, k))
  {
    if FooterAt(s, i).Some? {
      DeletedMatchStep(s, i);
    } else {
      DeletedSkipStep(s, i);
    }
  }

  lemma DeletedMatchStep(s: string, i: nat)
    requires i < |s| && FooterAt(s, i).Some?
    ensures var p := FooterAt(s, i).value.end;
      && i < p <= |s|
      && (forall k :: i <= k < p ==> DeletedFrom(s, i, k))
      && (forall k :: p <= k ==> DeletedFrom(s, i, k) == DeletedFrom(s, p, k))
  {
    FooterAtAdvances(s, i);
  }

  lemma DeletedSkipStep(s: string, i: nat)
    requires i < |s| && FooterAt(s, i).None?
    ensures !DeletedFrom(s, i, i)
    ensures forall k :: i < k ==> DeletedFrom(s, i, k) == DeletedFrom(s, i + 1, k)
  {
    assert Deleted(s, i) == [false] + Deleted(s, i + 1);
  }

  /** A match holds footer characters only, and a digit where its number starts. */
  lemma MatchChars(s: string, m: Match)
    requires IsMatch(s, m)
    ensures forall k :: m.start <= k < m.end ==> IsFooterChar(s[k])
    ensures m.numStart < |s| && IsDigit(s[m.numStart])
  {
    forall k | m.start <= k < m.end ensures IsFooterChar(s[k]) {
      if m.total.Some? {
        var t := m.total.value;
        if t.ofAt <= k < t.ofAt + 2 {
          assert s[k] == 'o' || s[k] == 'f';
        }
      }
      if m.page.Some? && m.page.value <= k < m.page.value + 4 {
        assert s[k] in "Page";
      }
    }
  }

  /** The match at `i`, when there is one, has a digit where its number starts. */
  lemma FooterHasDigit(s: string, i: nat)
    requires i <= |s|
    ensures FooterAt(s, i).Some? ==>
      var m := FooterAt(s, i).value;
      m.numStart < |s| && IsDigit(s[m.numStart])
  {
    FooterAtSound(s, i);
    if FooterAt(s, i).Some? {
      MatchChars(s, FooterAt(s, i).value);
    }
  }

  /** Only spaces, digits and letters of `Page` and `of` are ever deleted. */
  lemma {:induction false} DeletedAreFooterChars(s: string, i: nat)
    requires i <= |s|
    ensures forall k: nat :: DeletedFrom(s, i, k) ==> IsFooterChar(s[k])
    decreases |s| - i
  {
    if i < |s| {
      match FooterAt(s, i)
      case Some(m) =>
        DeletedMatchStep(s, i);
        FooterAtSound(s, i);
        MatchChars(s, m);
        DeletedAreFooterChars(s, m.end);
        forall k: nat | DeletedFrom(s, i, k)
          ensures IsFooterChar(s[k])
        {
          if k >= m.end {
            assert DeletedFrom(s, m.end, k);
          }
        }
      case None =>
        DeletedSkipStep(s, i);
        DeletedAreFooterChars(s, i + 1);
    }
  }

  lemma {:induction false} KeptOtherChars(s: string, deleted: seq<bool>)
    requires |deleted| == |s|
    requires forall k :: 0 <= k < |s| && deleted[k] ==> IsFooterChar(s[k])
    ensures OtherChars(Kept(s, deleted)) == OtherChars(s)
  {
    if s != [] {
      KeptOtherChars(s[1..], deleted[1..]);
      var rest := Kept(s[1..], deleted[1..]);
      if deleted[0] {
        assert Kept(s, deleted) == rest;
        assert IsFooterChar(s[0]);
      } else {
        var t := [s[0]] + rest;
        assert Kept(s, deleted) == t;
        assert t[0] == s[0] && t[1..] == rest;
      }
    }
  }

  /** Every character outside the footer alphabet survives, and in the same order. */
  lemma StripKeepsOtherChars(s: string)
    ensures OtherChars(StripPageNumbers(s)) == OtherChars(s)
  {
    DeletedAreFooterChars(s, 0);
    assert forall k :: 0 <= k < |s| ==> Deleted(s, 0)[k] == DeletedFrom(s, 0, k);
    KeptOtherChars(s, Deleted(s, 0));
  }

  lemma {:induction false} NothingDeletedWithoutDigits(s: string, i: nat)
    requires i <= |s|
    requires forall k :: 0 <= k < |s| ==> !IsDigit(s[k])
    ensures forall k: nat :: !DeletedFrom(s, i, k)
    decreases |s| - i
  {
    if i < |s| {
      DeletedStep(s, i);
      FooterHasDigit(s, i);
      if FooterAt(s, i).None? {
        NothingDeletedWithoutDigits(s, i + 1);
      }
    }
  }

  lemma {:induction false} KeptAll(s: string, deleted: seq<bool>)
    requires |deleted| == |s|
    requires forall k :: 0 <= k < |s| ==> !deleted[k]
    ensures Kept(s, deleted) == s
  {
    if s != [] {
      KeptAll(s[1..], deleted[1..]);
    }
  }

  /** Text without a digit comes back unchanged. */
  lemma NoDigitUnchanged(s: string)
    requires forall k :: 0 <= k < |s| ==> !IsDigit(s[k])
    ensures StripPageNumbers(s) == s
  {
    NothingDeletedWithoutDigits(s, 0);
    assert forall k :: 0 <= k < |s| ==> Deleted(s, 0)[k] == DeletedFrom(s, 0, k);
    KeptAll(s, Deleted(s, 0));
  }

  /** A single line standing at `[ls, le)`: line start to line end, no newline inside. */
  predicate IsLine(s: string, ls: nat, le: nat) {
    ls <= le <= |s| && AtLineStart(s, ls) && AtLineEnd(s, le) && forall k :: ls <= k < le ==> s[k] != '\n'
  }

  /** A match starting at or before a line that holds a non-footer character stops before it. */
  lemma MatchStopsBeforeOtherLine(s: string, m: Match, ls: nat, le: nat, w: nat)
    requires IsLine(s, ls, le) && ls <= w < le && !IsFooterChar(s[w])
    requires IsMatch(s, m) && m.start <= ls
    ensures m.end < ls
  {
    MatchChars(s, m);
  }

  lemma {:induction false} OtherLineKeptFrom(s: string, i: nat, ls: nat, le: nat, w: nat)
    requires IsLine(s, ls, le) && ls <= w < le && !IsFooterChar(s[w])
    requires i <= le
    ensures forall k: nat :: ls <= k + 1 && k <= le ==> !DeletedFrom(s, i, k)
    decreases |s| - i
  {
    if i < |s| {
      DeletedStep(s, i);
      FooterAtSound(s, i);
      match FooterAt(s, i)
      case Some(m) =>
        if ls < i {
          assert false;
        }
        MatchStopsBeforeOtherLine(s, m, ls, le, w);
        OtherLineKeptFrom(s, m.end, ls, le, w);
      case None =>
        if i < le {
          OtherLineKeptFrom(s, i + 1, ls, le, w);
        }
    }
  }

  /**
   * A line holding any character besides spaces, digits and the letters of
   * `Page` and `of` is kept verbatim, with the newlines on either side of it.
   */
  lemma OtherLineKept(s: string, ls: nat, le: nat, w: nat)
    requires IsLine(s, ls, le) && ls <= w < le && !IsFooterChar(s[w])
    ensures forall k: nat :: ls <= k + 1 && k <= le ==> !IsDeleted(s, k)
  {
    OtherLineKeptFrom(s, 0, ls, le, w);
  }

  lemma {:induction false} FooterLineDeletedFrom(s: string, i: nat, m: Match)
    requires IsMatch(s, m) && IsLine(s, m.start, m.end)
    requires i <= m.start
    ensures forall k :: m.start <= k < m.end ==> DeletedFrom(s, i, k)
    decreases |s| - i
  {
    DeletedStep(s, i);
    FooterAtSound(s, i);
    if i == m.start {
      FooterAtComplete(s, m);
    } else {
      match FooterAt(s, i)
      case Some(g) =>
        if g.end <= m.start {
          FooterLineDeletedFrom(s, g.end, m);
        } else if g.end < m.end {
          assert false;
        }
      case None =>
        FooterLineDeletedFrom(s, i + 1, m);
    }
  }

  /**
   * A line made only of optional spaces, an optional `Page`, a number, an
   * optional `of <number>` and spaces is blanked: every one of its characters
   * is deleted (its newline may survive).
   */
  lemma FooterLineDeleted(s: string, m: Match)
    requires IsMatch(s, m) && IsLine(s, m.start, m.end)
    ensures forall k :: m.start <= k < m.end ==> IsDeleted(s, k)
  {
    FooterLineDeletedFrom(s, 0, m);
  }

  lemma {:induction false} KeptNone(s: string, deleted: seq<bool>)
    requires |deleted| == |s|
    requires forall k :: 0 <= k < |s| ==> deleted[k]
    ensures Kept(s, deleted) == []
  {
    if s != [] {
      KeptNone(s[1..], deleted[1..]);
    }
  }

  /** A text that is one footer as a whole, even over several lines, strips to nothing. */
  lemma FooterStripsToNothing(s: string, m: Match)
    requires IsMatch(s, m) && m.start == 0 && m.end == |s|
    ensures StripPageNumbers(s) == ""
  {
    FooterAtComplete(s, m);
    FooterAtSound(s, 0);
    DeletedStep(s, 0);
    assert forall k :: 0 <= k < |s| ==> Deleted(s, 0)[k] == DeletedFrom(s, 0, k);
    KeptNone(s, Deleted(s, 0));
  }

  /** The footer `Page 3 of 10` standing alone disappears. */
  lemma PageOfTotalStripped()
    ensures StripPageNumbers("Page 3 of 10") == ""
  {
    FooterStripsToNothing("Page 3 of 10", Match(0, Some(0), 5, 6, Some(TotalCuts(7, 10, 12)), 12));
  }
}
