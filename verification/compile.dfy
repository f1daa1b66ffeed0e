/** `pdflatexFromPath` and `genpdf`: the renderer is run a fixed number of
    times, and after every pass the artifact is looked for. The renderer and
    the file system are replaced by an oracle: `present[k]` says whether the
    artifact exists once pass `k` (counted from 0) has exited. */
module Compile {
  import opened Text

  datatype Outcome = Done | Failed

  /** How a compile ends: how many renderer passes were started, whether the
      artifact was streamed out, and whether the temporary directory was
      removed. */
  datatype Run = Run(invocations: nat, outcome: Outcome, tempRemoved: bool)

  /** The starting value of the countdown: 2 on Windows, 1 elsewhere. */
  function Iterations(windows: bool): nat
  {
    if windows then 2 else 1
  }

  /** `genpdf(…, iter)` entered as pass number `pass`: run the renderer; when
      the artifact is missing, report and stop; when it is there and the
      countdown is at 0, stream it out and remove the temporary directory;
      otherwise go round again with `iter - 1`. */
  function Genpdf(present: seq<bool>, pass: nat, iter: nat): (r: Run)
    requires pass + iter < |present|
    ensures pass < r.invocations <= pass + iter + 1
    ensures r.tempRemoved <==> r.outcome == Done
    decreases iter
  {
    if !present[pass] then Run(pass + 1, Failed, false)
    else if iter == 0 then Run(pass + 1, Done, true)
    else Genpdf(present, pass + 1, iter - 1)
  }

  lemma {:induction false} GenpdfAllPresent(present: seq<bool>, pass: nat, iter: nat)
    requires pass + iter < |present|
    requires forall k :: pass <= k <= pass + iter ==> present[k]
    ensures Genpdf(present, pass, iter) == Run(pass + iter + 1, Done, true)
    decreases iter
  {
    if iter > 0 {
      GenpdfAllPresent(present, pass + 1, iter - 1);
    }
  }

  lemma {:induction false} GenpdfFirstMissing(present: seq<bool>, pass: nat, iter: nat, k: nat)
    requires pass + iter < |present|
    requires pass <= k <= pass + iter && !present[k]
    requires forall j :: pass <= j < k ==> present[j]
    ensures Genpdf(present, pass, iter) == Run(k + 1, Failed, false)
    decreases iter
  {
    if k > pass {
      GenpdfFirstMissing(present, pass + 1, iter - 1, k);
    }
  }

  /** The whole compile as `pdflatexFromPath` starts it. */
  function Countdown(windows: bool, present: seq<bool>): Run
    requires |present| > Iterations(windows)
  {
    Genpdf(present, 0, Iterations(windows))
  }

  /** The countdown as a loop: one renderer pass per round, then the
      artifact check decides between stopping and going round again. */
  method PdflatexFromPath(windows: bool, present: seq<bool>) returns (invocations: nat, outcome: Outcome, tempRemoved: bool)
    requires |present| > Iterations(windows)
    ensures Run(invocations, outcome, tempRemoved) == Countdown(windows, present)
  {
    var iter := Iterations(windows);
    invocations := 0;
    while true
      invariant invocations + iter == Iterations(windows)
      invariant Genpdf(present, invocations, iter) == Countdown(windows, present)
      decreases iter
    {
      var pass := invocations;
      invocations := invocations + 1;
      if !present[pass] {
        outcome, tempRemoved := Failed, false;
        return;
      }
      if iter == 0 {
        outcome, tempRemoved := Done, true;
        return;
      }
      iter := iter - 1;
    }
  }

  /** When every pass leaves the artifact behind, the renderer runs
      `Iterations(windows) + 1` times (three times on Windows, twice
      elsewhere), the artifact is streamed out and the directory removed. */
  lemma CountdownSucceeds(windows: bool, present: seq<bool>)
    requires |present| > Iterations(windows)
    requires forall k :: 0 <= k <= Iterations(windows) ==> present[k]
    ensures Countdown(windows, present) == Run(Iterations(windows) + 1, Done, true)
  {
    GenpdfAllPresent(present, 0, Iterations(windows));
  }

  /** When pass `k` is the first to leave no artifact, exactly `k + 1`
      passes were started (none after the failing one), the compile failed,
      and the temporary directory is kept. */
  lemma CountdownStopsAtFirstMissing(windows: bool, present: seq<bool>, k: nat)
    requires |present| > Iterations(windows)
    requires k <= Iterations(windows) && !present[k]
    requires forall j :: 0 <= j < k ==> present[j]
    ensures Countdown(windows, present) == Run(k + 1, Failed, false)
  {
    GenpdfFirstMissing(present, 0, Iterations(windows), k);
  }

  /** The separator `path.join` puts between the directory and the file name. */
  function Separator(windows: bool): char
  {
    if windows then '\\' else '/'
  }

  /** Where the document source is written inside the temporary directory. */
  function TexPath(tmpDir: string, windows: bool): string
  {
    tmpDir + [Separator(windows)] + "_notebook.tex"
  }

  /** The artifact path as the source derives it: everything before the
      FIRST dot anywhere in the path, then `.pdf`. */
  function ArtifactPathAsWritten(texPath: string): (r: string)
    ensures EndsWith(r, ".pdf") && '.' !in r[..|r| - 4]
    ensures StartsWith(texPath, r[..|r| - 4])
    ensures |r| - 4 < |texPath| ==> texPath[|r| - 4] == '.'
  {
    Before(texPath, '.') + ".pdf"
  }

  /** A dot in the temporary directory's path (a Windows user name such as
      `john.doe` is enough) makes the derived path miss the artifact: the
      renderer writes `_notebook.pdf` into the directory, the check looks at
      a name cut short at that dot. */
  lemma ArtifactPathAsWrittenMisses(front: string, rest: string, windows: bool)
    requires '.' !in front
    ensures var dir := front + "." + rest;
      ArtifactPathAsWritten(TexPath(dir, windows)) == front + ".pdf"
      && ArtifactPathAsWritten(TexPath(dir, windows)) != dir + [Separator(windows)] + "_notebook.pdf"
  {
    var dir := front + "." + rest;
    assert TexPath(dir, windows) == front + ("." + rest + [Separator(windows)] + "_notebook.tex");
    BeforeStops(front, "." + rest + [Separator(windows)] + "_notebook.tex", '.');
  }

  /** Without a dot in the directory's path, the source's derivation finds
      the artifact. */
  lemma ArtifactPathAsWrittenDotFree(dir: string, windows: bool)
    requires '.' !in dir
    ensures ArtifactPathAsWritten(TexPath(dir, windows)) == dir + [Separator(windows)] + "_notebook.pdf"
  {
    var front := dir + [Separator(windows)] + "_notebook";
    assert TexPath(dir, windows) == front + ".tex";
    BeforeStops(front, ".tex", '.');
  }

  /** The path with the extension of its last component replaced by `.pdf`:
      the dot that counts is the last one, and only when no separator
      follows it. */
  function ArtifactPath(texPath: string): (r: string)
    ensures EndsWith(r, ".pdf")
  {
    match LastIndexOf(texPath, '.')
    case Some(i) =>
      if '/' in texPath[i..] || '\\' in texPath[i..] then texPath + ".pdf" else texPath[..i] + ".pdf"
    case None => texPath + ".pdf"
  }

  /** Whatever the temporary directory is called, the corrected derivation
      names the file the renderer writes next to the source. */
  lemma ArtifactPathOfTexPath(tmpDir: string, windows: bool)
    ensures ArtifactPath(TexPath(tmpDir, windows)) == tmpDir + [Separator(windows)] + "_notebook.pdf"
  {
    var front := tmpDir + [Separator(windows)] + "_notebook";
    assert TexPath(tmpDir, windows) == front + ".tex";
    assert front + ".tex" == front + "." + "tex";
    LastDotIn(front, "tex");
    assert front + ".pdf" == tmpDir + [Separator(windows)] + "_notebook.pdf";
  }

  /** The last dot of `front + "." + tail`, when `tail` has none, is the one
      before it. */
  lemma LastDotIn(front: string, tail: string)
    requires '.' !in tail && '/' !in tail && '\\' !in tail
    ensures ArtifactPath(front + "." + tail) == front + ".pdf"
  {
    var s := front + "." + tail;
    var i := |front|;
    assert s[i] == '.';
    assert s[i + 1..] == tail;
    match LastIndexOf(s, '.')
    case None =>
      assert false;
    case Some(j) =>
      forall k | j < k < |s|
        ensures s[k] != '.'
      {
        assert s[k] == s[j + 1..][k - j - 1];
      }
      forall k | i < k < |s|
        ensures s[k] != '.'
      {
        assert s[k] == tail[k - i - 1];
      }
      assert j == i;
      assert s[i..] == "." + tail;
      assert s[..i] == front;
  }

  lemma BeforeStops(front: string, back: string, c: char)
    requires c !in front && back != [] && back[0] == c
    ensures Before(front + back, c) == front
  {
    var s := front + back;
    assert s[..|front|] == front;
    assert s[|front|] == c;
  }
}
