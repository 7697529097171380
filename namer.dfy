/**
 * The unique-name loop of `process_pdf_gradio` (main.py, lines 193-200): the
 * candidates `<name><ext>`, `<name>_1<ext>`, `<name>_2<ext>`, ... are tried in
 * turn against the output directory until one does not exist yet.
 */
module OutputNamer {
  import Paths

  /** The decimal digit for `d`. */
  function Digit(d: nat): char
    requires d < 10
  {
    "0123456789"[d]
  }

  /** `str(n)` for a natural number: its decimal digits, most significant first. */
  function DecimalDigits(n: nat): string
    decreases n
  {
    if n < 10 then [Digit(n)] else DecimalDigits(n / 10) + [Digit(n % 10)]
  }

  /** The value of a string of decimal digits. */
  function ParseDecimal(s: string): nat
    decreases |s|
  {
    if s == [] then 0
    else
      var c := s[|s| - 1];
      ParseDecimal(s[..|s| - 1]) * 10 + (if '0' <= c <= '9' then (c as int - '0' as int) else 0)
  }

  /** Reading back `str(n)` gives `n`: distinct counters give distinct suffixes. */
  lemma {:induction false} DecimalRoundTrip(n: nat)
    ensures ParseDecimal(DecimalDigits(n)) == n
    decreases n
  {
    if n >= 10 {
      DecimalRoundTrip(n / 10);
      var s := DecimalDigits(n);
      assert s[..|s| - 1] == DecimalDigits(n / 10);
    }
  }

  /** The counter's suffix: nothing for 0, `_<counter>` otherwise. */
  function Suffix(counter: nat): string {
    if counter == 0 then "" else "_" + DecimalDigits(counter)
  }

  /** The file name tried for `counter`. */
  function Candidate(base: string, counter: nat, ext: string): string {
    base + Suffix(counter) + ext
  }

  /** The path checked for `counter`: the candidate joined under the output directory. */
  function CandidatePath(dir: string, base: string, counter: nat, ext: string): string {
    Paths.Join(dir, Candidate(base, counter, ext))
  }

  lemma SuffixInjective(a: nat, b: nat)
    requires Suffix(a) == Suffix(b)
    ensures a == b
  {
    if a != 0 && b != 0 {
      assert DecimalDigits(a) == Suffix(a)[1..] == Suffix(b)[1..] == DecimalDigits(b);
      DecimalRoundTrip(a);
      DecimalRoundTrip(b);
    }
  }

  /** Different counters never name the same path, so each round of the loop checks a new file. */
  lemma CandidatePathInjective(dir: string, base: string, ext: string, a: nat, b: nat)
    requires CandidatePath(dir, base, a, ext) == CandidatePath(dir, base, b, ext)
    ensures a == b
  {
    var na := Candidate(base, a, ext);
    var nb := Candidate(base, b, ext);
    // Only the bare extension could start with `/` while another candidate does
    // not, and it is shorter than that candidate's path: the two agree on `/`.
    assert (|na| > 0 && na[0] == '/') == (|nb| > 0 && nb[0] == '/');
    Paths.JoinInjective(dir, na, nb);
    assert |Suffix(a)| == |Suffix(b)|;
    assert Suffix(a) == na[|base|..|base| + |Suffix(a)|];
    assert Suffix(b) == nb[|base|..|base| + |Suffix(b)|];
    SuffixInjective(a, b);
  }

  /** The paths of the first `n` candidates, for any naming `path` of the counters. */
  function Tried(path: nat -> string, n: nat): set<string> {
    if n == 0 then {} else Tried(path, n - 1) + {path(n - 1)}
  }

  lemma {:induction false} NotYetTried(path: nat -> string, n: nat, m: nat)
    requires n <= m
    requires forall a: nat :: a < n && path(a) == path(m) ==> a == m
    ensures path(m) !in Tried(path, n)
  {
    if n > 0 {
      NotYetTried(path, n - 1, m);
    }
  }

  /** `n` counters that name distinct paths name `n` paths. */
  lemma {:induction false} TriedSize(path: nat -> string, n: nat)
    requires forall a: nat, b: nat :: a < n && b < n && path(a) == path(b) ==> a == b
    ensures |Tried(path, n)| == n
  {
    if n > 0 {
      TriedSize(path, n - 1);
      NotYetTried(path, n - 1, n - 1);
    }
  }

  lemma {:induction false} TriedExist(existing: set<string>, path: nat -> string, n: nat)
    requires forall c: nat :: c < n ==> path(c) in existing
    ensures Tried(path, n) <= existing
  {
    if n > 0 {
      TriedExist(existing, path, n - 1);
    }
  }

  /** Pigeonhole: when the first `n` candidates all exist, the directory holds at least `n` paths. */
  lemma CandidatesBound(existing: set<string>, dir: string, base: string, ext: string, n: nat)
    requires forall c: nat :: c < n ==> CandidatePath(dir, base, c, ext) in existing
    ensures n <= |existing|
  {
    var path := (c: nat) => CandidatePath(dir, base, c, ext);
    forall a: nat, b: nat | a < n && b < n && path(a) == path(b)
      ensures a == b
    {
      CandidatePathInjective(dir, base, ext, a, b);
    }
    TriedSize(path, n);
    TriedExist(existing, path, n);
    var tried := Tried(path, n);
    assert existing == tried + (existing - tried);
  }

  /** The counter the loop stops at, from `from` on: the first whose path does not exist. */
  function FirstFree(existing: set<string>, dir: string, base: string, ext: string, from: nat): nat
    requires forall c: nat :: c < from ==> CandidatePath(dir, base, c, ext) in existing
    decreases |existing| - from
  {
    CandidatesBound(existing, dir, base, ext, from);
    if CandidatePath(dir, base, from, ext) !in existing then from
    else
      CandidatesBound(existing, dir, base, ext, from + 1);
      FirstFree(existing, dir, base, ext, from + 1)
  }

  /** The counter FirstFree picks is free, every smaller one is taken, and at most |existing| candidates are taken. */
  lemma {:induction false} FirstFreeIsLeast(existing: set<string>, dir: string, base: string, ext: string, from: nat)
    requires forall c: nat :: c < from ==> CandidatePath(dir, base, c, ext) in existing
    ensures var n := FirstFree(existing, dir, base, ext, from);
      && from <= n <= |existing|
      && CandidatePath(dir, base, n, ext) !in existing
      && forall c: nat :: c < n ==> CandidatePath(dir, base, c, ext) in existing
    decreases |existing| - from
  {
    CandidatesBound(existing, dir, base, ext, from);
    if CandidatePath(dir, base, from, ext) in existing {
      CandidatesBound(existing, dir, base, ext, from + 1);
      FirstFreeIsLeast(existing, dir, base, ext, from + 1);
    }
  }

  /** A free counter with every smaller one taken is the one FirstFree picks. */
  lemma LeastFreeIsFirstFree(existing: set<string>, dir: string, base: string, ext: string, k: nat)
    requires CandidatePath(dir, base, k, ext) !in existing
    requires forall c: nat :: c < k ==> CandidatePath(dir, base, c, ext) in existing
    ensures k == FirstFree(existing, dir, base, ext, 0)
  {
    FirstFreeIsLeast(existing, dir, base, ext, 0);
  }

  /**
   * Lines 193-200: the `while True` loop.  Returns the counter it stops at and
   * the file name built from it.
   */
  method UniqueOutputName(existing: set<string>, dir: string, base: string, ext: string)
    returns (name: string, counter: nat)
    ensures counter == FirstFree(existing, dir, base, ext, 0)
    ensures name == Candidate(base, counter, ext)
    ensures Paths.Join(dir, name) !in existing
    ensures forall c: nat :: c < counter ==> CandidatePath(dir, base, c, ext) in existing
    ensures counter <= |existing|
  {
    counter := 0;
    while true
      invariant forall c: nat :: c < counter ==> CandidatePath(dir, base, c, ext) in existing
      decreases |existing| - counter
    {
      name := base + Suffix(counter) + ext;
      var outputPath := Paths.Join(dir, name);
      if outputPath !in existing {
        break;
      }
      CandidatesBound(existing, dir, base, ext, counter + 1);
      counter := counter + 1;
    }
    CandidatesBound(existing, dir, base, ext, counter);
    LeastFreeIsFirstFree(existing, dir, base, ext, counter);
  }

  /** The names tried for `report` and `.epub`, counters 0 to 2. */
  lemma ReportNames()
    ensures Candidate("report", 0, ".epub") == "report.epub"
    ensures Candidate("report", 1, ".epub") == "report_1.epub"
    ensures Candidate("report", 2, ".epub") == "report_2.epub"
  {
    assert Suffix(1) == "_1";
    assert Suffix(2) == "_2";
  }

  /** The paths checked for `report` and `.epub` under `outputs`, counters 0 to 2. */
  lemma ReportPaths()
    ensures CandidatePath("outputs", "report", 0, ".epub") == "outputs/report.epub"
    ensures CandidatePath("outputs", "report", 1, ".epub") == "outputs/report_1.epub"
    ensures CandidatePath("outputs", "report", 2, ".epub") == "outputs/report_2.epub"
  {
    ReportNames();
    JoinOutputs("report.epub");
    JoinOutputs("report_1.epub");
    JoinOutputs("report_2.epub");
  }

  lemma JoinOutputs(name: string)
    requires |name| > 0 && name[0] == 'r'
    ensures Paths.Join("outputs", name) == "outputs/" + name
  {
  }

  /** With `report.epub` and `report_1.epub` already in `outputs`, the new file is `report_2.epub`. */
  lemma ReportExample()
    ensures var existing := {"outputs/report.epub", "outputs/report_1.epub"};
      Candidate("report", FirstFree(existing, "outputs", "report", ".epub", 0), ".epub") == "report_2.epub"
  {
    var existing := {"outputs/report.epub", "outputs/report_1.epub"};
    ReportNames();
    ReportPaths();
    assert forall c: nat :: c < 2 ==> CandidatePath("outputs", "report", c, ".epub") in existing;
    if CandidatePath("outputs", "report", 2, ".epub") == CandidatePath("outputs", "report", 0, ".epub") {
      CandidatePathInjective("outputs", "report", ".epub", 2, 0);
    }
    if CandidatePath("outputs", "report", 2, ".epub") == CandidatePath("outputs", "report", 1, ".epub") {
      CandidatePathInjective("outputs", "report", ".epub", 2, 1);
    }
    LeastFreeIsFirstFree(existing, "outputs", "report", ".epub", 2);
  }
}
