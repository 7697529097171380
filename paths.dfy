/**
 * The three POSIX path operations the orchestrator uses (Python's
 * `posixpath.join` with two components, `posixpath.basename` and
 * `posixpath.splitext`), on paths as strings with `/` as separator.
 */
module Paths {
  import opened Wrappers

  /** Index of the last occurrence of `c` in `s`, as `str.rfind` finds it. */
  function LastIndex(s: string, c: char): (r: Option<nat>)
    ensures r.Some? ==> r.value < |s| && s[r.value] == c && forall k :: r.value < k < |s| ==> s[k] != c
    ensures r.None? ==> forall k :: 0 <= k < |s| ==> s[k] != c
    decreases |s|
  {
    if s == [] then None
    else if s[|s| - 1] == c then Some(|s| - 1)
    else LastIndex(s[..|s| - 1], c)
  }

  /** `os.path.join(a, b)`: an absolute `b` replaces `a`; otherwise a `/` is put between them unless `a` is empty or ends with one. */
  function Join(a: string, b: string): (p: string)
    ensures |b| <= |p| && p[|p| - |b|..] == b
  {
    if |b| > 0 && b[0] == '/' then b
    else if a == [] || a[|a| - 1] == '/' then a + b
    else a + "/" + b
  }

  /** Where the last path component starts: just after the last `/`, or at 0 when there is none. */
  function NameStart(p: string): (n: nat)
    ensures n <= |p| && (n == 0 || p[n - 1] == '/')
    ensures forall k :: n <= k < |p| ==> p[k] != '/'
  {
    match LastIndex(p, '/')
    case Some(i) => i + 1
    case None => 0
  }

  /** `os.path.basename(p)`: everything after the last `/`. */
  function BaseName(p: string): (b: string)
    ensures |b| <= |p| && p[|p| - |b|..] == b
    ensures forall k :: 0 <= k < |b| ==> b[k] != '/'
  {
    p[NameStart(p)..]
  }

  /**
   * `os.path.splitext(p)`: the extension starts at the last `.` of the last
   * path component, unless only dots precede that `.` in the component.
   */
  function SplitExt(p: string): (string, string) {
    var nameStart := NameStart(p);
    match LastIndex(p, '.')
    case Some(d) =>
      if nameStart <= d && exists k | nameStart <= k < d :: p[k] != '.' then (p[..d], p[d..]) else (p, "")
    case None => (p, "")
  }

  /**
   * Nothing is lost, the extension is empty or one `.` with no further `.` or
   * `/` (so it starts at the last `.`), and an extension is split off exactly
   * when the last path component holds a `.` after some other character.
   */
  lemma SplitExtParts(p: string)
    ensures SplitExt(p).0 + SplitExt(p).1 == p
    ensures var ext := SplitExt(p).1;
      ext == [] || (ext[0] == '.' && forall k :: 1 <= k < |ext| ==> ext[k] != '.' && ext[k] != '/')
    ensures SplitExt(p).1 != [] <==>
      exists k, d :: NameStart(p) <= k < d < |p| && p[k] != '.' && p[d] == '.'
  {
    var nameStart := NameStart(p);
    match LastIndex(p, '.')
    case Some(d) =>
      if nameStart <= d && exists k | nameStart <= k < d :: p[k] != '.' {
        var ext := p[d..];
        forall k | 1 <= k < |ext| ensures ext[k] != '.' && ext[k] != '/' {
          assert ext[k] == p[d + k];
        }
        var k :| nameStart <= k < d && p[k] != '.';
        assert p[..d] + p[d..] == p;
      } else {
        assert forall k, d' :: nameStart <= k < d' < |p| && p[k] != '.' && p[d'] == '.' ==> d' <= d;
      }
    case None =>
  }

  /** The last `c` of `s` is at `i` when `s[i]` is `c` and no `c` follows it. */
  lemma LastIndexIs(s: string, c: char, i: nat)
    requires i < |s| && s[i] == c && forall k :: i < k < |s| ==> s[k] != c
    ensures LastIndex(s, c) == Some(i)
  {
  }

  /** An upload named `report.pdf` has the root `report`. */
  lemma SplitExtReport()
    ensures SplitExt("report.pdf") == ("report", ".pdf")
  {
    var p := "report.pdf";
    assert forall k :: 0 <= k < |p| ==> p[k] != '/';
    assert NameStart(p) == 0;
    LastIndexIs(p, '.', 6);
    assert p[0] != '.';
    assert p[..6] == "report" && p[6..] == ".pdf";
  }

  /** Only the last `.` starts the extension. */
  lemma SplitExtLastDot()
    ensures SplitExt("scans/book.v2.pdf") == ("scans/book.v2", ".pdf")
  {
    var p := "scans/book.v2.pdf";
    LastIndexIs(p, '/', 5);
    LastIndexIs(p, '.', 13);
    assert p[6] != '.';
    assert p[..13] == "scans/book.v2" && p[13..] == ".pdf";
  }

  /** A dot file in a directory has no extension. */
  lemma SplitExtDotFile()
    ensures SplitExt("a/.bashrc") == ("a/.bashrc", "")
  {
    var p := "a/.bashrc";
    LastIndexIs(p, '/', 1);
    LastIndexIs(p, '.', 2);
  }

  /** Joining a name that has no `/` and taking the base name gives the name back. */
  lemma BaseNameOfJoin(a: string, b: string)
    requires forall k :: 0 <= k < |b| ==> b[k] != '/'
    ensures BaseName(Join(a, b)) == b
  {
    var p := Join(a, b);
    if |b| > 0 && b[0] == '/' {
    } else if a == [] || a[|a| - 1] == '/' {
      if a == [] {
        assert p == b;
        assert LastIndex(p, '/').None?;
      } else {
        assert p[|a| - 1] == '/';
        assert forall k :: |a| <= k < |p| ==> p[k] == b[k - |a|];
        assert LastIndex(p, '/') == Some(|a| - 1);
        assert p[|a|..] == b;
      }
    } else {
      assert p[|a|] == '/';
      assert forall k :: |a| + 1 <= k < |p| ==> p[k] == b[k - |a| - 1];
      assert LastIndex(p, '/') == Some(|a|);
      assert p[|a| + 1..] == b;
    }
  }

  /** Two names that agree on starting with `/` land on the same path only when they are equal. */
  lemma JoinInjective(a: string, b1: string, b2: string)
    requires (|b1| > 0 && b1[0] == '/') == (|b2| > 0 && b2[0] == '/')
    requires Join(a, b1) == Join(a, b2)
    ensures b1 == b2
  {
    var p := Join(a, b1);
    assert |b1| == |b2|;
    assert b1 == p[|p| - |b1|..] == b2;
  }

  /** Joining under a plain directory name puts exactly one `/` between directory and name. */
  lemma JoinUnderDirectory(a: string, b: string)
    requires a != [] && a[|a| - 1] != '/'
    requires b == [] || b[0] != '/'
    ensures Join(a, b) == a + "/" + b
  {
  }
}
