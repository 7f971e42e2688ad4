/**
 * The daily benchmark gate: it compares the commit recorded after the
 * last successful run with the current commit and runs the benchmark
 * script only when there is no record, or when files outside
 * `scripts/` changed since the recorded commit (or that cannot be
 * determined). The record is the only state kept between invocations,
 * and it is rewritten only after the script succeeds.
 */
module DailyBenchmarkBot {
  import opened Wrappers
  import opened Strings

  /** What running a git command gives: its output, or a non-zero exit. */
  datatype CommandResult = Output(stdout: string) | Failed

  /** `run_command`: the output with surrounding white space stripped. */
  function RunCommand(result: CommandResult): Option<string>
  {
    match result
    case Output(out) => Some(Strip(out))
    case Failed => None
  }

  /**
   * `check_for_changes`: the stripped `git diff --name-only` output is
   * non-empty, or the diff failed and changes are assumed. Equivalently:
   * the diff failed or printed at least one non-white-space character.
   */
  function CheckForChanges(diff: CommandResult): (changed: bool)
    ensures changed <==> diff.Failed? || exists i :: 0 <= i < |diff.stdout| && !IsSpace(diff.stdout[i])
  {
    match RunCommand(diff)
    case Some(output) =>
      StripEmpty(diff.stdout);
      |output| > 0
    case None => true
  }

  /** The four ways `main` can decide. */
  datatype Decision = NoPreviousRun | NoNewCommits | ChangesDetected | NoRelevantChanges

  /** Whether a decision runs the benchmarks. */
  predicate ShouldRun(d: Decision)
  {
    d == NoPreviousRun || d == ChangesDetected
  }

  /**
   * The decision in `main`: no recorded commit (or an empty one) runs;
   * the same commit skips; a different commit runs exactly when the
   * change check says so.
   */
  function Decide(lastCommit: Option<string>, currentCommit: string, diff: CommandResult): Decision
  {
    if lastCommit.None? || lastCommit.value == "" then NoPreviousRun
    else if lastCommit.value == currentCommit then NoNewCommits
    else if CheckForChanges(diff) then ChangesDetected
    else NoRelevantChanges
  }

  /** Without a usable record the gate always runs, whatever the diff says. */
  lemma NoRecordRuns(lastCommit: Option<string>, currentCommit: string, diff: CommandResult)
    requires lastCommit.None? || lastCommit.value == ""
    ensures ShouldRun(Decide(lastCommit, currentCommit, diff))
  {
  }

  /**
   * With a record equal to the current commit the gate skips, and the
   * diff is not consulted: any other diff outcome gives the same decision.
   */
  lemma SameCommitSkips(c: string, diff: CommandResult, otherDiff: CommandResult)
    requires c != ""
    ensures Decide(Some(c), c, diff) == NoNewCommits
    ensures Decide(Some(c), c, diff) == Decide(Some(c), c, otherDiff)
    ensures !ShouldRun(Decide(Some(c), c, diff))
  {
  }

  /**
   * With a different record, the gate runs exactly when the diff failed
   * (fail-open) or listed a changed file.
   */
  lemma DifferentCommitFollowsDiff(last: string, currentCommit: string, diff: CommandResult)
    requires last != "" && last != currentCommit
    ensures ShouldRun(Decide(Some(last), currentCommit, diff)) <==>
            diff.Failed? || exists i :: 0 <= i < |diff.stdout| && !IsSpace(diff.stdout[i])
  {
  }

  /** A diff that printed only white space (or nothing) means no relevant change. */
  lemma BlankDiffSkips(last: string, currentCommit: string, out: string)
    requires last != "" && last != currentCommit
    requires forall i :: 0 <= i < |out| ==> IsSpace(out[i])
    ensures Decide(Some(last), currentCommit, Output(out)) == NoRelevantChanges
  {
  }

  /**
   * The command `run_benchmarks` starts: the script, then the given
   * arguments or "*" when there are none, then "--job" "short".
   */
  function RunnerCommand(script: string, args: seq<string>): (cmd: seq<string>)
    ensures |cmd| == (if args == [] then 4 else 3 + |args|) && cmd[0] == script
    ensures cmd[|cmd| - 2..] == ["--job", "short"]
    ensures args != [] ==> cmd[1..|cmd| - 2] == args
    ensures args == [] ==> cmd[1..|cmd| - 2] == ["*"]
  {
    var cmd := [script];
    var cmd := if args != [] then cmd + args else cmd + ["*"];
    cmd + ["--job", "short"]
  }

  /** What one invocation of `main` ends with. */
  datatype Outcome =
    | HeadLookupFailed          // `git rev-parse HEAD` failed: the script stops with an error
    | Skipped(decision: Decision)
    | RunFailed(command: seq<string>)  // the benchmark script exited non-zero: `sys.exit(1)`
    | Ran(command: seq<string>)

  /** `get_last_run_commit`: the stripped file content, or nothing when the file is absent. */
  function ReadMarker(file: Option<string>): Option<string>
  {
    match file
    case Some(content) => Some(Strip(content))
    case None => None
  }

  /**
   * Writing a commit that `run_command` returned and reading it back
   * gives the same commit, so the next invocation at that commit skips.
   */
  lemma MarkerRoundTrip(revParseOutput: string, diff: CommandResult)
    requires Strip(revParseOutput) != ""
    ensures var c := Strip(revParseOutput);
            ReadMarker(Some(c)) == Some(c) && Decide(ReadMarker(Some(c)), c, diff) == NoNewCommits
  {
    StripIdempotent(revParseOutput);
  }

  /**
   * The bot. Its only state is the content of the `last_run_commit`
   * file: absent before the first successful run.
   */
  class Bot {
    var marker: Option<string>
    const script: string

    constructor (script: string, marker: Option<string>)
      ensures this.script == script && this.marker == marker
    {
      this.script := script;
      this.marker := marker;
    }

    /** The recorded commit, as `get_last_run_commit` reads it. */
    function LastRunCommit(): Option<string>
      reads this
    {
      ReadMarker(marker)
    }

    /**
     * `main`: `head` is the outcome of `git rev-parse HEAD`, `diff` that
     * of `git diff --name-only`, `args` the command-line arguments and
     * `exitCode` the benchmark script's exit status. The file is
     * rewritten with the current commit only after a decided run whose
     * script exited with 0; otherwise it is left as it was.
     */
    method Invoke(head: CommandResult, diff: CommandResult, args: seq<string>, exitCode: int)
      returns (outcome: Outcome)
      modifies this
      ensures head.Failed? ==> outcome == HeadLookupFailed
      ensures head.Output? ==>
                var current := Strip(head.stdout);
                var decision := Decide(old(LastRunCommit()), current, diff);
                var cmd := RunnerCommand(script, args);
                outcome == (if !ShouldRun(decision) then Skipped(decision)
                            else if exitCode != 0 then RunFailed(cmd)
                            else Ran(cmd))
      ensures marker == (if outcome.Ran? then Some(Strip(head.stdout)) else old(marker))
    {
      if head.Failed? {
        return HeadLookupFailed;
      }
      var currentCommit := RunCommand(head).value;
      var lastCommit := LastRunCommit();
      var decision := Decide(lastCommit, currentCommit, diff);
      var shouldRun := ShouldRun(decision);
      if shouldRun {
        var cmd := RunnerCommand(script, args);
        if exitCode != 0 {
          return RunFailed(cmd);
        }
        marker := Some(currentCommit);
        outcome := Ran(cmd);
      } else {
        outcome := Skipped(decision);
      }
    }
  }

  /**
   * Two invocations at the same commit: once the first has run and
   * succeeded, the second skips and leaves the record alone, whatever
   * its diff, arguments and exit code.
   */
  method RunThenSkip(bot: Bot, head: string, diff1: CommandResult, diff2: CommandResult,
                     args: seq<string>, exitCode: int)
    returns (first: Outcome, second: Outcome)
    requires Strip(head) != ""
    modifies bot
    ensures first.Ran? ==> second == Skipped(NoNewCommits) && bot.marker == Some(Strip(head))
  {
    first := bot.Invoke(Output(head), diff1, args, 0);
    if first.Ran? {
      MarkerRoundTrip(head, diff2);
    }
    second := bot.Invoke(Output(head), diff2, args, exitCode);
  }
}
