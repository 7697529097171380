/**
 * Stripping page numbers twice gives what stripping once gives (main.py,
 * line 54).
 *
 * The `re.sub` scan deletes whole matches, and every match runs from a line
 * start to a line end.  So each maximal run of deleted characters sits between
 * a newline (or the start of the text) and a newline (or the end of the text),
 * and in the stripped text every place where something was cut out has a
 * newline on both sides.  A match in the stripped text can then be narrowed,
 * at those newlines, to a match that lies in one uncut stretch; that stretch
 * stands in the original text at a position the scan kept, where the pattern
 * would have matched and the scan would have deleted it.
 */
module StripIdempotence {
  import opened Wrappers
  import opened PageNumbers

  // ---------------------------------------------------------------------------
  // The scan

  /** The scan tries every position it keeps, so no match starts at a kept position. */
  lemma {:induction false} KeptPositionsHaveNoMatch(s: string, i: nat)
    requires i <= |s|
    ensures forall k: nat :: i <= k < |s| && !DeletedFrom(s, i, k) ==> FooterAt(s, k).None?
    decreases |s| - i
  {
    if i < |s| {
      match FooterAt(s, i)
      case Some(m) =>
        DeletedMatchStep(s, i);
        KeptPositionsHaveNoMatch(s, m.end);
      case None =>
        DeletedSkipStep(s, i);
        KeptPositionsHaveNoMatch(s, i + 1);
    }
  }

  /** A run of deleted characters begins at a line start. */
  lemma {:induction false} DeletedRunsStartLines(s: string, i: nat)
    requires i <= |s|
    ensures forall k: nat {:trigger AtLineStart(s, k)} ::
      DeletedFrom(s, i, k) && (k == i || (k > 0 && !DeletedFrom(s, i, k - 1))) ==> AtLineStart(s, k)
    decreases |s| - i
  {
    if i < |s| {
      match FooterAt(s, i)
      case Some(m) =>
        DeletedMatchStep(s, i);
        FooterAtSound(s, i);
        DeletedRunsStartLines(s, m.end);
        forall k: nat | DeletedFrom(s, i, k) && (k == i || (k > 0 && !DeletedFrom(s, i, k - 1)))
          ensures AtLineStart(s, k)
        {
          if k == i {
            assert AtLineStart(s, m.start);
          } else {
            assert DeletedFrom(s, m.end, k) && !DeletedFrom(s, m.end, k - 1);
          }
        }
      case None =>
        DeletedSkipStep(s, i);
        DeletedRunsStartLines(s, i + 1);
        forall k: nat | DeletedFrom(s, i, k) && (k == i || (k > 0 && !DeletedFrom(s, i, k - 1)))
          ensures AtLineStart(s, k)
        {
          assert DeletedFrom(s, i + 1, k);
          assert k == i + 1 || !DeletedFrom(s, i + 1, k - 1);
        }
    } else {
      assert forall k: nat :: !DeletedFrom(s, i, k);
    }
  }

  /** A run of deleted characters ends at a line end. */
  lemma {:induction false} DeletedRunsEndLines(s: string, i: nat)
    requires i <= |s|
    ensures forall k: nat {:trigger AtLineEnd(s, k)} ::
      i < k <= |s| && DeletedFrom(s, i, k - 1) && !DeletedFrom(s, i, k) ==> AtLineEnd(s, k)
    decreases |s| - i
  {
    if i < |s| {
      match FooterAt(s, i)
      case Some(m) =>
        DeletedMatchStep(s, i);
        FooterAtSound(s, i);
        DeletedRunsEndLines(s, m.end);
        forall k: nat | i < k <= |s| && DeletedFrom(s, i, k - 1) && !DeletedFrom(s, i, k)
          ensures AtLineEnd(s, k)
        {
          if k > m.end {
            assert DeletedFrom(s, m.end, k - 1) && !DeletedFrom(s, m.end, k);
          } else {
            assert k == m.end;
            assert TailMatch(s, m.numEnd, m.total, m.end);
          }
        }
      case None =>
        DeletedSkipStep(s, i);
        DeletedRunsEndLines(s, i + 1);
        forall k: nat | i < k <= |s| && DeletedFrom(s, i, k - 1) && !DeletedFrom(s, i, k)
          ensures AtLineEnd(s, k)
        {
          assert DeletedFrom(s, i + 1, k - 1) && !DeletedFrom(s, i + 1, k);
        }
    }
  }

  /** Where no match starts, the scan deletes nothing. */
  lemma {:induction false} NothingDeletedWithoutMatches(s: string, i: nat)
    requires i <= |s|
    requires forall k: nat :: k <= |s| ==> FooterAt(s, k).None?
    ensures forall k: nat :: !DeletedFrom(s, i, k)
    decreases |s| - i
  {
    if i < |s| {
      DeletedSkipStep(s, i);
      NothingDeletedWithoutMatches(s, i + 1);
    }
  }

  // ---------------------------------------------------------------------------
  // Where the kept characters come from

  /** The positions from `i` on whose flag is not set, in increasing order. */
  function KeptIndices(deleted: seq<bool>, i: nat): seq<nat>
    requires i <= |deleted|
    decreases |deleted| - i
  {
    if i == |deleted| then [] else (if deleted[i] then [] else [i]) + KeptIndices(deleted, i + 1)
  }

  /** The position in the original text of the `q`-th kept character, or the text's length past the last one. */
  function Next(ks: seq<nat>, n: nat, q: nat): nat
    requires q <= |ks|
  {
    if q < |ks| then ks[q] else n
  }

  /** The position in the original text just after the kept character before the `q`-th one. */
  function Prev(ks: seq<nat>, lo: nat, q: nat): nat
    requires q <= |ks|
  {
    if q == 0 then lo else ks[q - 1] + 1
  }

  /** Something was cut out just before the `q`-th kept character. */
  predicate Gap(ks: seq<nat>, lo: nat, n: nat, q: nat) {
    q <= |ks| && Prev(ks, lo, q) < Next(ks, n, q)
  }

  /** The kept positions are flags that are not set. */
  lemma {:induction false} KeptIndicesBounds(deleted: seq<bool>, i: nat)
    requires i <= |deleted|
    ensures forall q :: 0 <= q < |KeptIndices(deleted, i)| ==>
      i + q <= KeptIndices(deleted, i)[q] < |deleted| && !deleted[KeptIndices(deleted, i)[q]]
    decreases |deleted| - i
  {
    if i < |deleted| {
      KeptIndicesBounds(deleted, i + 1);
      var ks, rest := KeptIndices(deleted, i), KeptIndices(deleted, i + 1);
      if !deleted[i] {
        assert ks == [i] + rest;
      }
    }
  }

  /** Each kept position lies at or after the one just past its predecessor. */
  lemma {:induction false} KeptIndicesOrder(deleted: seq<bool>, i: nat)
    requires i <= |deleted|
    ensures forall q: nat :: q <= |KeptIndices(deleted, i)| ==>
      Prev(KeptIndices(deleted, i), i, q) <= Next(KeptIndices(deleted, i), |deleted|, q) <= |deleted|
    decreases |deleted| - i
  {
    KeptIndicesBounds(deleted, i);
    if i < |deleted| {
      KeptIndicesOrder(deleted, i + 1);
      var ks, rest := KeptIndices(deleted, i), KeptIndices(deleted, i + 1);
      var n := |deleted|;
      if deleted[i] {
        assert ks == rest;
        forall q: nat | 0 < q <= |ks| ensures Prev(ks, i, q) == Prev(rest, i + 1, q) {
        }
      } else {
        assert ks == [i] + rest;
        forall q: nat | 0 < q <= |ks|
          ensures Prev(ks, i, q) == Prev(rest, i + 1, q - 1) && Next(ks, n, q) == Next(rest, n, q - 1)
        {
          assert q < |ks| ==> ks[q] == rest[q - 1];
          assert q > 1 ==> ks[q - 1] == rest[q - 2];
        }
      }
    }
  }

  /**
   * Every position between two consecutive kept positions (or before the
   * first, or after the last) is flagged.
   */
  lemma {:induction false} KeptIndicesGaps(deleted: seq<bool>, i: nat)
    requires i <= |deleted|
    ensures forall q: nat :: Gap(KeptIndices(deleted, i), i, |deleted|, q) ==>
      Prev(KeptIndices(deleted, i), i, q) < Next(KeptIndices(deleted, i), |deleted|, q) <= |deleted| &&
      deleted[Prev(KeptIndices(deleted, i), i, q)] && deleted[Next(KeptIndices(deleted, i), |deleted|, q) - 1]
    decreases |deleted| - i, 1
  {
    KeptIndicesOrder(deleted, i);
    if i < |deleted| {
      if deleted[i] {
        GapsAfterFlagged(deleted, i);
      } else {
        GapsAfterKept(deleted, i);
      }
    }
  }

  /** `KeptIndicesGaps` at a flagged position, from the same fact one position on. */
  lemma {:induction false} GapsAfterFlagged(deleted: seq<bool>, i: nat)
    requires i < |deleted| && deleted[i]
    ensures forall q: nat :: Gap(KeptIndices(deleted, i), i, |deleted|, q) && Next(KeptIndices(deleted, i), |deleted|, q) <= |deleted| ==>
      deleted[Prev(KeptIndices(deleted, i), i, q)] && deleted[Next(KeptIndices(deleted, i), |deleted|, q) - 1]
    decreases |deleted| - i, 0
  {
    KeptIndicesGaps(deleted, i + 1);
    var ks, rest := KeptIndices(deleted, i), KeptIndices(deleted, i + 1);
    var n := |deleted|;
    assert ks == rest;
    forall q: nat | Gap(ks, i, n, q) && Next(ks, n, q) <= n
      ensures deleted[Prev(ks, i, q)] && deleted[Next(ks, n, q) - 1]
    {
      if q == 0 {
        if Next(rest, n, 0) > i + 1 {
          assert Gap(rest, i + 1, n, 0);
        }
      } else {
        assert Prev(ks, i, q) == Prev(rest, i + 1, q) && Next(ks, n, q) == Next(rest, n, q);
        assert Gap(rest, i + 1, n, q);
      }
    }
  }

  /** `KeptIndicesGaps` at a kept position, from the same fact one position on. */
  lemma {:induction false} GapsAfterKept(deleted: seq<bool>, i: nat)
    requires i < |deleted| && !deleted[i]
    ensures forall q: nat :: Gap(KeptIndices(deleted, i), i, |deleted|, q) && Next(KeptIndices(deleted, i), |deleted|, q) <= |deleted| ==>
      deleted[Prev(KeptIndices(deleted, i), i, q)] && deleted[Next(KeptIndices(deleted, i), |deleted|, q) - 1]
    decreases |deleted| - i, 0
  {
    KeptIndicesGaps(deleted, i + 1);
    var ks, rest := KeptIndices(deleted, i), KeptIndices(deleted, i + 1);
    var n := |deleted|;
    assert ks == [i] + rest;
    forall q: nat | Gap(ks, i, n, q) && Next(ks, n, q) <= n
      ensures deleted[Prev(ks, i, q)] && deleted[Next(ks, n, q) - 1]
    {
      assert q > 0;
      assert q < |ks| ==> ks[q] == rest[q - 1];
      assert q > 1 ==> ks[q - 1] == rest[q - 2];
      assert Prev(ks, i, q) == Prev(rest, i + 1, q - 1) && Next(ks, n, q) == Next(rest, n, q - 1);
      assert Gap(rest, i + 1, n, q - 1);
    }
  }

  /** The three facts about kept positions together. */
  lemma KeptIndicesFacts(deleted: seq<bool>, i: nat)
    requires i <= |deleted|
    ensures var ks := KeptIndices(deleted, i);
      && (forall q :: 0 <= q < |ks| ==> i + q <= ks[q] < |deleted| && !deleted[ks[q]])
      && (forall q: nat :: q <= |ks| ==> Prev(ks, i, q) <= Next(ks, |deleted|, q))
      && (forall q: nat :: Gap(ks, i, |deleted|, q) ==>
            deleted[Prev(ks, i, q)] && deleted[Next(ks, |deleted|, q) - 1])
  {
    KeptIndicesBounds(deleted, i);
    KeptIndicesOrder(deleted, i);
    KeptIndicesGaps(deleted, i);
  }

  /** The kept text is the original's characters at the kept positions. */
  lemma {:induction false} KeptAtIndices(s: string, deleted: seq<bool>, i: nat)
    requires |deleted| == |s| && i <= |s|
    ensures var t, ks := Kept(s[i..], deleted[i..]), KeptIndices(deleted, i);
      |t| == |ks| && forall q :: 0 <= q < |t| ==> ks[q] < |s| && t[q] == s[ks[q]]
    decreases |s| - i
  {
    KeptIndicesFacts(deleted, i);
    if i < |s| {
      KeptAtIndices(s, deleted, i + 1);
      assert s[i..][1..] == s[i + 1..] && deleted[i..][1..] == deleted[i + 1..];
      var rest := Kept(s[i + 1..], deleted[i + 1..]);
      if !deleted[i] {
        assert Kept(s[i..], deleted[i..]) == [s[i]] + rest;
      }
    }
  }

  // ---------------------------------------------------------------------------
  // The stripped text

  /** The stripped text and the original's positions of its characters. */
  lemma StrippedIndices(s: string) returns (ks: seq<nat>)
    ensures var t := StripPageNumbers(s);
      && ks == KeptIndices(Deleted(s, 0), 0)
      && |t| == |ks|
      && (forall q :: 0 <= q < |t| ==> q <= ks[q] < |s| && t[q] == s[ks[q]] && !DeletedFrom(s, 0, ks[q]))
      && (forall q: nat :: q <= |ks| ==> Prev(ks, 0, q) <= Next(ks, |s|, q))
  {
    var del := Deleted(s, 0);
    ks := KeptIndices(del, 0);
    assert s[0..] == s && del[0..] == del;
    KeptAtIndices(s, del, 0);
    KeptIndicesFacts(del, 0);
    assert forall k :: 0 <= k < |s| ==> del[k] == DeletedFrom(s, 0, k);
  }

  /** A newline ends each run of deleted characters that stops inside the text. */
  lemma RunEndIsNewline(s: string, k: nat)
    requires 0 < k < |s| && IsDeleted(s, k - 1) && !IsDeleted(s, k)
    ensures s[k] == '\n'
  {
    DeletedRunsEndLines(s, 0);
    assert AtLineEnd(s, k);
  }

  /** A newline stands before each run of deleted characters that starts inside the text. */
  lemma RunStartFollowsNewline(s: string, k: nat)
    requires 0 < k < |s| && IsDeleted(s, k) && !IsDeleted(s, k - 1)
    ensures s[k - 1] == '\n'
  {
    DeletedRunsStartLines(s, 0);
    assert AtLineStart(s, k);
  }

  /** A newline ends and a newline begins every run of deleted characters that stops or starts inside the text. */
  lemma RunBoundaries(s: string)
    ensures |Deleted(s, 0)| == |s|
    ensures forall k {:trigger s[k]} :: 0 < k < |s| && Deleted(s, 0)[k - 1] && !Deleted(s, 0)[k] ==> s[k] == '\n'
    ensures forall k {:trigger s[k]} :: 0 <= k && k + 1 < |s| && !Deleted(s, 0)[k] && Deleted(s, 0)[k + 1] ==> s[k] == '\n'
  {
    var del := Deleted(s, 0);
    forall k | 0 < k < |s| && del[k - 1] && !del[k] ensures s[k] == '\n' {
      RunEndIsNewline(s, k);
    }
    forall k | 0 <= k && k + 1 < |s| && !del[k] && del[k + 1] ensures s[k] == '\n' {
      RunStartFollowsNewline(s, k + 1);
    }
  }

  /**
   * Keeping the unflagged characters of a text whose flagged runs are bounded
   * by newlines leaves a newline on both sides of every cut.
   */
  lemma CutsOfKept(s: string, del: seq<bool>, t: string)
    requires |del| == |s|
    requires forall k {:trigger s[k]} :: 0 < k < |s| && del[k - 1] && !del[k] ==> s[k] == '\n'
    requires forall k {:trigger s[k]} :: 0 <= k && k + 1 < |s| && !del[k] && del[k + 1] ==> s[k] == '\n'
    requires |t| == |KeptIndices(del, 0)|
    requires forall q :: 0 <= q < |t| ==> KeptIndices(del, 0)[q] < |s| && t[q] == s[KeptIndices(del, 0)[q]]
    ensures forall q: nat :: q < |t| && Gap(KeptIndices(del, 0), 0, |s|, q) ==> t[q] == '\n'
    ensures forall q: nat :: 0 < q <= |t| && Gap(KeptIndices(del, 0), 0, |s|, q) ==> t[q - 1] == '\n'
  {
    var ks := KeptIndices(del, 0);
    KeptIndicesBounds(del, 0);
    KeptIndicesGaps(del, 0);
    forall q: nat | q < |t| && Gap(ks, 0, |s|, q)
      ensures t[q] == '\n'
    {
      var k := ks[q];
      assert Next(ks, |s|, q) == k && del[k - 1] && !del[k];
      assert s[k] == '\n';
    }
    forall q: nat | 0 < q <= |t| && Gap(ks, 0, |s|, q)
      ensures t[q - 1] == '\n'
    {
      var k := ks[q - 1] + 1;
      assert Prev(ks, 0, q) == k && del[k] && !del[k - 1];
      assert s[k - 1] == '\n';
    }
  }

  /** In the stripped text a newline stands on both sides of every cut. */
  lemma StrippedCutFacts(s: string)
    ensures var t, ks := StripPageNumbers(s), KeptIndices(Deleted(s, 0), 0);
      && (forall q: nat :: q < |t| && Gap(ks, 0, |s|, q) ==> t[q] == '\n')
      && (forall q: nat :: 0 < q <= |t| && Gap(ks, 0, |s|, q) ==> t[q - 1] == '\n')
  {
    var ks := StrippedIndices(s);
    RunBoundaries(s);
    var t := StripPageNumbers(s);
    assert |t| == |KeptIndices(Deleted(s, 0), 0)|;
    assert forall q :: 0 <= q < |t| ==> KeptIndices(Deleted(s, 0), 0)[q] < |s| && t[q] == s[KeptIndices(Deleted(s, 0), 0)[q]];
    CutsOfKept(s, Deleted(s, 0), t);
  }

  /** In the stripped text every cut falls between two newlines. */
  lemma StrippedCuts(s: string, gap: nat -> bool)
    requires forall q: nat :: gap(q) == Gap(KeptIndices(Deleted(s, 0), 0), 0, |s|, q)
    ensures CutsBetweenNewlines(StripPageNumbers(s), gap)
  {
    StrippedCutFacts(s);
  }

  /** Without a cut, consecutive kept characters are neighbours in the original. */
  lemma {:induction false} Contiguous(ks: seq<nat>, n: nat, a: nat, b: nat)
    requires a <= b <= |ks|
    requires forall q: nat :: a < q <= b ==> !Gap(ks, 0, n, q)
    requires forall q: nat :: q <= |ks| ==> Prev(ks, 0, q) <= Next(ks, n, q)
    ensures forall q: nat :: a <= q <= b ==> Next(ks, n, q) == Next(ks, n, a) + (q - a)
    decreases b - a
  {
    if a < b {
      Contiguous(ks, n, a, b - 1);
      assert !Gap(ks, 0, n, b);
      assert Next(ks, n, b) == Prev(ks, 0, b) == Next(ks, n, b - 1) + 1;
    }
  }

  // ---------------------------------------------------------------------------
  // Narrowing a match to an uncut stretch

  /** The last `q` in `[lo, hi]` with `gap(q)`. */
  function LastGap(gap: nat -> bool, lo: nat, hi: nat): (r: Option<nat>)
    ensures r.Some? ==> lo <= r.value <= hi && gap(r.value) && forall q: nat :: r.value < q <= hi ==> !gap(q)
    ensures r.None? ==> forall q: nat :: lo <= q <= hi ==> !gap(q)
    decreases hi
  {
    if hi < lo then None
    else if gap(hi) then Some(hi)
    else if hi == lo then None
    else LastGap(gap, lo, hi - 1)
  }

  /** The first `q` in `[lo, hi]` with `gap(q)`. */
  function FirstGap(gap: nat -> bool, lo: nat, hi: nat): (r: Option<nat>)
    ensures r.Some? ==> lo <= r.value <= hi && gap(r.value) && forall q: nat :: lo <= q < r.value ==> !gap(q)
    ensures r.None? ==> forall q: nat :: lo <= q <= hi ==> !gap(q)
    decreases hi - lo
  {
    if hi < lo then None
    else if gap(lo) then Some(lo)
    else if hi == lo then None
    else FirstGap(gap, lo + 1, hi)
  }

  /** Cuts fall only between two newlines. */
  predicate CutsBetweenNewlines(t: string, gap: nat -> bool) {
    && (forall q: nat :: q < |t| && gap(q) ==> t[q] == '\n')
    && (forall q: nat :: 0 < q <= |t| && gap(q) ==> t[q - 1] == '\n')
  }

  /** `^\s*(?:Page\s*)?` from `start`, up to the number at `numStart`. */
  predicate LeadMatch(t: string, start: nat, page: Option<nat>, numStart: nat) {
    && AtLineStart(t, start)
    && SpacesIn(t, start, if page.Some? then page.value else numStart)
    && (page.Some? ==> PageAt(t, page.value) && SpacesIn(t, page.value + 4, numStart))
  }

  /**
   * The lead of a match, narrowed to start after the last cut before the
   * number; `Page` is dropped when a cut follows it.
   */
  lemma NarrowLead(t: string, gap: nat -> bool, start0: nat, page0: Option<nat>, numStart: nat)
    returns (start: nat, page: Option<nat>)
    requires CutsBetweenNewlines(t, gap)
    requires numStart < |t| && t[numStart] != '\n'
    requires AtLineStart(t, start0) || LastGap(gap, start0, numStart).Some?
    requires SpacesIn(t, start0, if page0.Some? then page0.value else numStart)
    requires page0.Some? ==> PageAt(t, page0.value) && SpacesIn(t, page0.value + 4, numStart)
    ensures LeadMatch(t, start, page, numStart) && start <= numStart
    ensures forall q: nat :: start <= q <= numStart ==> !gap(q)
  {
    match LastGap(gap, start0, numStart)
    case None =>
      start, page := start0, page0;
    case Some(g) =>
      assert t[g] == '\n';
      start := g + 1;
      if page0.Some? && page0.value >= start {
        page := page0;
      } else {
        page := None;
        if page0.Some? {
          var p := page0.value;
          assert t[p] != '\n' && t[p + 1] != '\n' && t[p + 2] != '\n' && t[p + 3] != '\n';
          assert g >= p + 4;
        }
      }
  }

  /**
   * The tail of a match, narrowed to end at the newline before the first cut
   * after the number; the `of` group is dropped when that cut comes before it.
   */
  lemma NarrowTail(t: string, gap: nat -> bool, numEnd: nat, total0: Option<TotalCuts>, end0: nat)
    returns (total: Option<TotalCuts>, end: nat)
    requires CutsBetweenNewlines(t, gap)
    requires 0 < numEnd <= |t| && t[numEnd - 1] != '\n'
    requires TailMatch(t, numEnd, total0, end0)
    requires total0.Some? ==> LastGap(gap, total0.value.ofAt + 2, total0.value.numStart).None?
    ensures TailMatch(t, numEnd, total, end) && numEnd <= end
    ensures forall q: nat :: numEnd <= q <= end ==> !gap(q)
  {
    TailMatchForward(t, numEnd, total0, end0);
    match FirstGap(gap, numEnd, end0)
    case None =>
      total, end := total0, end0;
    case Some(h) =>
      assert t[h - 1] == '\n';
      end := h - 1;
      if total0.Some? && h > total0.value.numEnd {
        total := total0;
      } else {
        total := None;
        if total0.Some? {
          var c := total0.value;
          assert !(c.ofAt + 2 <= h <= c.numStart);
          assert t[c.ofAt] != '\n' && t[c.ofAt + 1] != '\n';
          assert forall k :: c.numStart <= k < c.numEnd ==> t[k] != '\n';
          assert h - 1 < c.ofAt;
        }
      }
  }

  /** The parts of a match after its `of`: spaces, the second number and the trailing spaces. */
  lemma TotalParts(t: string, m: Match)
    requires IsMatch(t, m) && m.total.Some?
    ensures var c := m.total.value;
      && c.ofAt + 2 <= c.numStart < c.numEnd <= m.end
      && SpacesIn(t, c.ofAt + 2, c.numStart) && t[c.numStart] != '\n'
      && DigitsIn(t, c.numStart, c.numEnd) && t[c.numEnd - 1] != '\n'
      && TailMatch(t, c.numEnd, None, m.end)
  {
  }

  /** A lead, a number and a tail, none crossed by a cut, make a match no cut crosses. */
  lemma Assemble(t: string, gap: nat -> bool, start: nat, page: Option<nat>, numStart: nat, numEnd: nat,
                 total: Option<TotalCuts>, end: nat) returns (m2: Match)
    requires CutsBetweenNewlines(t, gap)
    requires LeadMatch(t, start, page, numStart) && start <= numStart
    requires forall q: nat :: start <= q <= numStart ==> !gap(q)
    requires DigitsIn(t, numStart, numEnd)
    requires TailMatch(t, numEnd, total, end) && numEnd <= end
    requires forall q: nat :: numEnd <= q <= end ==> !gap(q)
    ensures m2 == Match(start, page, numStart, numEnd, total, end)
    ensures IsMatch(t, m2) && m2.start < |t| && m2.start <= m2.end
    ensures forall q: nat :: m2.start <= q <= m2.end ==> !gap(q)
  {
    m2 := Match(start, page, numStart, numEnd, total, end);
    forall q: nat | start <= q <= end
      ensures !gap(q)
    {
      if numStart < q < numEnd {
        assert IsDigit(t[q - 1]);
      }
    }
  }

  /** A match with a cut between `of` and its number narrows to the number after `of` alone. */
  lemma UncutAfterOf(t: string, gap: nat -> bool, m: Match) returns (m2: Match)
    requires CutsBetweenNewlines(t, gap)
    requires IsMatch(t, m) && m.total.Some?
    requires LastGap(gap, m.total.value.ofAt + 2, m.total.value.numStart).Some?
    ensures IsMatch(t, m2) && m2.start < |t| && m2.start <= m2.end
    ensures forall q: nat :: m2.start <= q <= m2.end ==> !gap(q)
  {
    var c := m.total.value;
    TotalParts(t, m);
    var start, page := NarrowLead(t, gap, c.ofAt + 2, None, c.numStart);
    var total, end := NarrowTail(t, gap, c.numEnd, None, m.end);
    m2 := Assemble(t, gap, start, page, c.numStart, c.numEnd, total, end);
  }

  /** Every match of a text with cuts between newlines can be narrowed to one that no cut crosses. */
  lemma UncutMatch(t: string, gap: nat -> bool, m: Match) returns (m2: Match)
    requires CutsBetweenNewlines(t, gap)
    requires IsMatch(t, m)
    ensures IsMatch(t, m2) && m2.start < |t| && m2.start <= m2.end
    ensures forall q: nat :: m2.start <= q <= m2.end ==> !gap(q)
  {
    if m.total.Some? && LastGap(gap, m.total.value.ofAt + 2, m.total.value.numStart).Some? {
      m2 := UncutAfterOf(t, gap, m);
    } else {
      assert t[m.numStart] != '\n' && t[m.numEnd - 1] != '\n';
      var start, page := NarrowLead(t, gap, m.start, m.page, m.numStart);
      var total, end := NarrowTail(t, gap, m.numEnd, m.total, m.end);
      m2 := Assemble(t, gap, start, page, m.numStart, m.numEnd, total, end);
    }
  }

  // ---------------------------------------------------------------------------
  // Moving a match between texts

  function ShiftTotal(c: Option<TotalCuts>, d: nat): Option<TotalCuts> {
    if c.Some? then Some(TotalCuts(c.value.ofAt + d, c.value.numStart + d, c.value.numEnd + d)) else None
  }

  function Shift(m: Match, d: nat): Match {
    Match(m.start + d, if m.page.Some? then Some(m.page.value + d) else None,
          m.numStart + d, m.numEnd + d, ShiftTotal(m.total, d), m.end + d)
  }

  /** Equal characters along `[a, b)` of `t` and `[a + d, b + d)` of `s`. */
  predicate SameWindow(t: string, s: string, a: nat, b: nat, d: nat) {
    a <= b <= |t| && b + d <= |s| && forall k :: a <= k < b ==> s[k + d] == t[k]
  }

  lemma ShiftSpaces(t: string, s: string, a: nat, b: nat, d: nat, lo: nat, hi: nat)
    requires SameWindow(t, s, a, b, d) && a <= lo && hi <= b
    requires SpacesIn(t, lo, hi)
    ensures SpacesIn(s, lo + d, hi + d)
  {
    forall k | lo + d <= k < hi + d ensures IsSpace(s[k]) {
      assert s[(k - d) + d] == t[k - d];
    }
  }

  lemma ShiftDigits(t: string, s: string, a: nat, b: nat, d: nat, lo: nat, hi: nat)
    requires SameWindow(t, s, a, b, d) && a <= lo && hi <= b
    requires DigitsIn(t, lo, hi)
    ensures DigitsIn(s, lo + d, hi + d)
  {
    forall k | lo + d <= k < hi + d ensures IsDigit(s[k]) {
      assert s[(k - d) + d] == t[k - d];
    }
  }

  /** The tail of a match stands in another text wherever the same characters do, up to a line end. */
  lemma ShiftTail(t: string, s: string, a: nat, b: nat, d: nat, numEnd: nat, total: Option<TotalCuts>)
    requires SameWindow(t, s, a, b, d) && a <= numEnd
    requires TailMatch(t, numEnd, total, b) && AtLineEnd(s, b + d)
    ensures TailMatch(s, numEnd + d, ShiftTotal(total, d), b + d)
  {
    match total
    case None =>
      ShiftSpaces(t, s, a, b, d, numEnd, b);
    case Some(c) =>
      ShiftSpaces(t, s, a, b, d, numEnd, c.ofAt);
      assert s[c.ofAt + d] == t[c.ofAt] && s[c.ofAt + 1 + d] == t[c.ofAt + 1];
      ShiftSpaces(t, s, a, b, d, c.ofAt + 2, c.numStart);
      ShiftDigits(t, s, a, b, d, c.numStart, c.numEnd);
      ShiftSpaces(t, s, a, b, d, c.numEnd, b);
  }

  /** The part of a match before its tail stands in another text wherever the same characters do. */
  lemma ShiftLead(t: string, s: string, m: Match, d: nat)
    requires IsMatch(t, m)
    requires SameWindow(t, s, m.start, m.end, d)
    ensures var m' := Shift(m, d);
      && SpacesIn(s, m'.start, LeadEnd(m'))
      && (m'.page.Some? ==> PageAt(s, m'.page.value) && SpacesIn(s, m'.page.value + 4, m'.numStart))
      && DigitsIn(s, m'.numStart, m'.numEnd)
  {
    TailMatchForward(t, m.numEnd, m.total, m.end);
    var a, b := m.start, m.end;
    ShiftSpaces(t, s, a, b, d, a, LeadEnd(m));
    if m.page.Some? {
      var p := m.page.value;
      assert s[p + d] == t[p] && s[p + 1 + d] == t[p + 1] && s[p + 2 + d] == t[p + 2] && s[p + 3 + d] == t[p + 3];
      ShiftSpaces(t, s, a, b, d, p + 4, m.numStart);
    }
    ShiftDigits(t, s, a, b, d, m.numStart, m.numEnd);
    assert LeadEnd(Shift(m, d)) == LeadEnd(m) + d;
  }

  /** A match stands in another text wherever the same characters stand between a line start and a line end. */
  lemma ShiftMatch(t: string, s: string, m: Match, d: nat)
    requires IsMatch(t, m)
    requires SameWindow(t, s, m.start, m.end, d)
    requires AtLineStart(s, m.start + d) && AtLineEnd(s, m.end + d)
    ensures IsMatch(s, Shift(m, d))
  {
    TailMatchForward(t, m.numEnd, m.total, m.end);
    ShiftLead(t, s, m, d);
    ShiftTail(t, s, m.start, m.end, d, m.numEnd, m.total);
  }

  // ---------------------------------------------------------------------------
  // Idempotence

  /**
   * A stretch `[a, b]` of the stripped text that no cut crosses stands in the
   * original text at the kept position of its first character, between the
   * same line boundaries.
   */
  lemma KeptWindow(s: string, a: nat, b: nat) returns (d: nat)
    requires a < b <= |StripPageNumbers(s)|
    requires AtLineStart(StripPageNumbers(s), a) && AtLineEnd(StripPageNumbers(s), b)
    requires forall q: nat :: a <= q <= b ==> !Gap(KeptIndices(Deleted(s, 0), 0), 0, |s|, q)
    ensures SameWindow(StripPageNumbers(s), s, a, b, d)
    ensures AtLineStart(s, a + d) && AtLineEnd(s, b + d)
    ensures a + d < |s| && !DeletedFrom(s, 0, a + d)
  {
    var t := StripPageNumbers(s);
    var ks := StrippedIndices(s);
    Contiguous(ks, |s|, a, b);
    d := ks[a] - a;
    forall k | a <= k < b ensures k + d < |s| && s[k + d] == t[k] {
      assert ks[k] == Next(ks, |s|, k) == k + d;
    }
    assert Next(ks, |s|, b) == b + d;
    assert !Gap(ks, 0, |s|, a) && !Gap(ks, 0, |s|, b);
    if a > 0 {
      assert s[ks[a - 1]] == t[a - 1];
    }
    if b < |t| {
      assert s[ks[b]] == t[b];
    }
  }

  /** A match in the stripped text narrows to one that no cut crosses. */
  lemma UncutStrippedMatch(s: string, i: nat) returns (m: Match)
    requires i <= |StripPageNumbers(s)| && FooterAt(StripPageNumbers(s), i).Some?
    ensures IsMatch(StripPageNumbers(s), m) && m.start < |StripPageNumbers(s)| && m.start <= m.end
    ensures forall q: nat :: m.start <= q <= m.end ==> !Gap(KeptIndices(Deleted(s, 0), 0), 0, |s|, q)
  {
    var t := StripPageNumbers(s);
    var gap := (q: nat) => Gap(KeptIndices(Deleted(s, 0), 0), 0, |s|, q);
    StrippedCuts(s, gap);
    FooterAtSound(t, i);
    m := UncutMatch(t, gap, FooterAt(t, i).value);
  }

  /** A match in the stripped text that no cut crosses stands in the original text at a position the scan kept. */
  lemma KeptMatch(s: string, m2: Match) returns (m: Match)
    requires IsMatch(StripPageNumbers(s), m2) && m2.start < |StripPageNumbers(s)| && m2.start <= m2.end
    requires forall q: nat :: m2.start <= q <= m2.end ==> !Gap(KeptIndices(Deleted(s, 0), 0), 0, |s|, q)
    ensures IsMatch(s, m) && !DeletedFrom(s, 0, m.start) && m.start < |s|
  {
    var t := StripPageNumbers(s);
    TailMatchForward(t, m2.numEnd, m2.total, m2.end);
    var d := KeptWindow(s, m2.start, m2.end);
    ShiftMatch(t, s, m2, d);
    m := Shift(m2, d);
  }

  /** No match starts anywhere in the stripped text. */
  lemma NoMatchAfterStrip(s: string, i: nat)
    requires i <= |StripPageNumbers(s)|
    ensures FooterAt(StripPageNumbers(s), i).None?
  {
    if FooterAt(StripPageNumbers(s), i).Some? {
      var m2 := UncutStrippedMatch(s, i);
      var m := KeptMatch(s, m2);
      FooterAtComplete(s, m);
      KeptPositionsHaveNoMatch(s, 0);
      assert false;
    }
  }

  /** Stripping page numbers a second time changes nothing. */
  lemma StripIdempotent(s: string)
    ensures StripPageNumbers(StripPageNumbers(s)) == StripPageNumbers(s)
  {
    var t := StripPageNumbers(s);
    forall k: nat | k <= |t| ensures FooterAt(t, k).None? {
      NoMatchAfterStrip(s, k);
    }
    NothingDeletedWithoutMatches(t, 0);
    assert forall k :: 0 <= k < |t| ==> Deleted(t, 0)[k] == DeletedFrom(t, 0, k);
    KeptAll(t, Deleted(t, 0));
  }
}
