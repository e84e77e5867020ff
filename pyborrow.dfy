/**
 * The decision rules webborrow/app.py wraps around its calls to the
 * inventory tool: the argument vector of `run_pyborrow`, when a fetch
 * counts as failed, what the machine listing holds, and when a borrow or a
 * free counts as done.
 */
module Pyborrow {
  import opened Wrappers
  import opened Text
  import opened Ansi
  import MachineTable
  import Summary

  /** An argument that borrows or frees a machine. */
  predicate IsActionFlag(a: string) {
    a == "-b" || a == "-f" || a == "--borrow" || a == "--free"
  }

  /** The arguments ask for a borrow or a free. */
  predicate HasActionFlag(args: seq<string>) {
    exists i :: 0 <= i < |args| && IsActionFlag(args[i])
  }

  /**
   * The command `run_pyborrow` runs: the interpreter, the script, the
   * arguments, and "-q" when the arguments borrow or free.
   */
  function PyborrowCommand(interpreter: string, script: string, args: seq<string>): (cmd: seq<string>)
    ensures |cmd| == 2 + |args| + (if HasActionFlag(args) then 1 else 0)
    ensures cmd[..2 + |args|] == [interpreter, script] + args
    ensures HasActionFlag(args) ==> cmd[|cmd| - 1] == "-q"
  {
    var base := [interpreter, script] + args;
    assert base[..2 + |args|] == base;
    if |args| > 0 && HasActionFlag(args) then base + ["-q"] else base
  }

  /** `get_machines` gives up only when the tool failed and printed nothing. */
  predicate FetchFailed(code: int, stdout: string) {
    code != 0 && stdout == []
  }

  /** The response of `get_machines`. */
  datatype Listing =
    | FetchError(message: string)
    | Machines(machines: seq<MachineTable.Machine>, summary: Summary.Counts, count: nat)

  function GetMachines(stdout: string, stderr: string, code: int): (r: Listing)
    ensures r.FetchError? <==> FetchFailed(code, stdout)
    ensures r.FetchError? ==> r.message == "Failed to fetch machines: " + stderr
    ensures r.Machines? ==> r.count == |r.machines|
    ensures r.Machines? ==> r.machines == MachineTable.Machines(stdout)
    ensures r.Machines? ==> r.summary == Summary.OutputSummary(stdout)
  {
    if code != 0 && stdout == [] then FetchError("Failed to fetch machines: " + stderr)
    else
      var machines := MachineTable.Machines(stdout);
      Machines(machines, Summary.OutputSummary(stdout), |machines|)
  }

  /**
   * A borrow (keyword "borrowed") or a free (keyword "freed") succeeded: the
   * exit code is zero, or the colour-stripped, lower-cased output says so.
   */
  predicate ActionSucceeded(code: int, stdout: string, keyword: string): (r: bool)
    ensures code == 0 ==> r
    ensures NoEsc(stdout) && Contains(Lower(stdout), keyword) ==> r
    ensures !r ==> code != 0
  {
    code == 0 || Contains(Lower(StripAnsi(stdout)), keyword)
  }

  /** `borrow_machine`: exit code zero, or "borrowed" in any case in the plain output. */
  predicate BorrowSucceeded(code: int, stdout: string): (r: bool)
    ensures code == 0 ==> r
    ensures NoEsc(stdout) && Contains(Lower(stdout), "borrowed") ==> r
  {
    ActionSucceeded(code, stdout, "borrowed")
  }

  /** `free_machine`: exit code zero, or "freed" in any case in the plain output. */
  predicate FreeSucceeded(code: int, stdout: string): (r: bool)
    ensures code == 0 ==> r
    ensures NoEsc(stdout) && Contains(Lower(stdout), "freed") ==> r
  {
    ActionSucceeded(code, stdout, "freed")
  }

  /** A borrow or free call always carries the quiet flag. */
  lemma ActionCommandsAreQuiet(interpreter: string, script: string, flag: string, name: string)
    requires flag == "-b" || flag == "-f"
    ensures PyborrowCommand(interpreter, script, [flag, name])
      == [interpreter, script, flag, name, "-q"]
  {
    assert IsActionFlag([flag, name][0]);
  }

  /** A call without a borrow or free flag, such as the listing, is passed on unchanged. */
  lemma PlainCommandsAreNotQuiet(interpreter: string, script: string, args: seq<string>)
    requires forall i :: 0 <= i < |args| ==> !IsActionFlag(args[i])
    ensures PyborrowCommand(interpreter, script, args) == [interpreter, script] + args
  {
  }

  /** With output in hand the listing is parsed even when the exit code is not zero. */
  lemma OutputIsParsedDespiteExitCode(stdout: string, stderr: string, code: int)
    requires stdout != []
    ensures GetMachines(stdout, stderr, code).Machines?
  {
  }

  /**
   * The keyword counts even when the tool colours it and exits with an
   * error: a coloured "borrowed" line is a successful borrow.
   */
  lemma ColouredKeywordSucceeds(colour: string, text: string, reset: string, code: int, keyword: string)
    requires IsSgr(colour) && IsSgr(reset) && NoEsc(text)
    requires Lower(keyword) == keyword && Contains(text, keyword)
    ensures ActionSucceeded(code, colour + text + reset, keyword)
  {
    StripAnsiColoured(colour, text, reset);
    LowerKeepsWord(text, keyword);
  }

  /** Without a zero exit code and without the keyword, the action failed. */
  lemma SilentFailure(code: int, stdout: string, keyword: string)
    requires code != 0 && !Contains(Lower(StripAnsi(stdout)), keyword)
    ensures !ActionSucceeded(code, stdout, keyword)
  {
  }
}
