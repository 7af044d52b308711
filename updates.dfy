/**
 * The pending-updates metric of src/metrics/update.rs: every run of
 * `checkupdates` sets a flag (a kernel update is pending: the output
 * mentions "linux") and a count (one package per output line), and the
 * display shows them.
 */
module Updates {
  import opened Wrappers
  import opened Utf8
  import opened Text

  /** What one run of the command gives: it could not be spawned, or it exited, successfully or not, with this output. */
  datatype CommandOutput = SpawnFailed | Exited(success: bool, stdout: seq<Byte>)

  const NEWLINE: char := '\n'
  const KERNEL: string := "linux"
  const GLYPH: char := '\U{1F501}'

  /**
   * The values one iteration of `start` stores: the flag and the number of
   * lines of the output when the command ran successfully and printed
   * UTF-8; `(false, 0)` otherwise.
   */
  function Check(out: CommandOutput): (r: (bool, nat))
    ensures r.0 ==> out.Exited? && out.success && Valid(out.stdout) && Contains(Decode(out.stdout), KERNEL)
    ensures r.1 > 0 ==> out.Exited? && out.success && Valid(out.stdout) && |out.stdout| > 0
  {
    if out.SpawnFailed? || !out.success || !Valid(out.stdout) then (false, 0)
    else
      var updates := Decode(out.stdout);
      CountPositive(updates);
      (Contains(updates, KERNEL), LineCount(updates, NEWLINE))
  }

  lemma CountPositive(s: string)
    ensures LineCount(s, NEWLINE) > 0 <==> |s| > 0
  {
  }

  /**
   * Output that is a list of package lines, each ended by a newline, counts
   * one update per line; the flag is whether "linux" occurs in it.
   */
  lemma CheckCountsPackages(packages: seq<string>)
    requires forall k :: 0 <= k < |packages| ==> NEWLINE !in packages[k]
    ensures var text := Lines(packages);
      Check(Exited(true, Encode(text))) == (Contains(text, KERNEL), |packages|)
  {
    var text := Lines(packages);
    DecodeEncode(text);
    LinesCount(packages);
  }

  /** Each package followed by a newline. */
  function Lines(packages: seq<string>): string
  {
    if |packages| == 0 then [] else packages[0] + [NEWLINE] + Lines(packages[1..])
  }

  lemma {:induction false} LinesCount(packages: seq<string>)
    requires forall k :: 0 <= k < |packages| ==> NEWLINE !in packages[k]
    ensures LineCount(Lines(packages), NEWLINE) == |packages|
    decreases |packages|
  {
    if |packages| > 0 {
      var text := Lines(packages);
      var first := packages[0] + [NEWLINE];
      assert text == first + Lines(packages[1..]);
      FirstLineOf(packages[0], Lines(packages[1..]));
      assert text[|first|..] == Lines(packages[1..]);
      LinesCount(packages[1..]);
    }
  }

  lemma {:induction false} FirstLineOf(line: string, rest: string)
    requires NEWLINE !in line
    ensures FirstLineLength(line + [NEWLINE] + rest, NEWLINE) == |line| + 1
    decreases |line|
  {
    if |line| > 0 {
      assert (line + [NEWLINE] + rest)[1..] == line[1..] + [NEWLINE] + rest;
      FirstLineOf(line[1..], rest);
    }
  }

  /** Failures leave no stale value: a failed spawn, a failure exit and non-UTF-8 output all give `(false, 0)`. */
  lemma CheckFailures(out: CommandOutput)
    requires out.SpawnFailed? || !out.success || !Valid(out.stdout)
    ensures Check(out) == (false, 0)
  {
  }

  /** The `Display` rule: nothing without updates, else the glyph, a `!` for a kernel update, a space and the count. */
  function Show(systemUpdate: bool, count: nat): (text: string)
    ensures count == 0 <==> text == ""
  {
    if count == 0 then ""
    else if systemUpdate then [GLYPH] + "! " + Decimal(count)
    else [GLYPH] + " " + Decimal(count)
  }

  /** A shown text splits into the marker and the count, which reads back as the count. */
  lemma ShowReadsBack(systemUpdate: bool, count: nat)
    requires count > 0
    ensures var text := Show(systemUpdate, count);
      var marker := if systemUpdate then [GLYPH, '!'] else [GLYPH];
      && SplitWhitespace(text) == [marker, Decimal(count)]
      && ParseUnsigned(SplitWhitespace(text)[1], count) == Some(count)
  {
    var marker := if systemUpdate then [GLYPH, '!'] else [GLYPH];
    var d := Decimal(count);
    assert forall i :: 0 <= i < |d| ==> IsDigit(d[i]);
    assert Show(systemUpdate, count) == marker + " " + d;
    SplitTwo(marker, d);
    ParseDecimal(count, count);
  }

  /** The metric object: the two cells and the sleep between runs. */
  class UpdatesMetric {
    var systemUpdate: bool
    var updatesCount: nat
    const timeout: nat

    constructor (timeout: nat)
      ensures this.timeout == timeout && !systemUpdate && updatesCount == 0
    {
      this.timeout := timeout;
      systemUpdate := false;
      updatesCount := 0;
    }

    /**
     * The `start` loop over the successive command runs `runs`: both cells
     * are overwritten on every iteration, so after the loop they hold what
     * the last run gave.
     */
    method Start(runs: seq<CommandOutput>)
      modifies this
      ensures |runs| == 0 ==> systemUpdate == old(systemUpdate) && updatesCount == old(updatesCount)
      ensures |runs| > 0 ==> (systemUpdate, updatesCount) == Check(runs[|runs| - 1])
    {
      for i := 0 to |runs|
        invariant i == 0 ==> systemUpdate == old(systemUpdate) && updatesCount == old(updatesCount)
        invariant i > 0 ==> (systemUpdate, updatesCount) == Check(runs[i - 1])
      {
        var res := Check(runs[i]);
        systemUpdate := res.0;
        updatesCount := res.1;
      }
    }
  }
}
