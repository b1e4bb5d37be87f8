/**
  The builtin commands (`run_builtin` in src/main.rs). A builtin either
  prints some text, prints nothing, or ends the shell with an exit status.

  The operating system is a parameter: `cwd` is the working directory as
  `current_dir` reports it (nothing when it cannot be read), and `cdErrors`
  gives, for a `cd` argument, the error `set_current_dir` reports for that
  directory under the home directory; an argument it does not hold is a
  directory `cd` can enter. The executables table is the one
  `load_executables` builds.
 */
module Builtins {
  import opened Wrappers
  import Text
  import Numbers

  /** The names `parse_command` hands to `run_builtin`. */
  const BUILTINS: seq<string> := ["echo", "exit", "type", "pwd", "cd", "history"]

  /** The name of the `echo` builtin. */
  const ECHO: string := "echo"

  predicate IsBuiltin(name: string)
  {
    name in BUILTINS
  }

  datatype Os = Os(cwd: Option<string>, cdErrors: map<string, string>)

  /** What a builtin does: print the text it returns, if any, or end the process. */
  datatype Outcome = Printed(output: Option<string>) | Exited(code: int)

  /** The status `exit` ends the shell with: its first argument as an `i32`, else 0. */
  function ExitCode(args: seq<string>): (code: int)
    ensures Numbers.I32_MIN <= code <= Numbers.I32_MAX
  {
    if args == [] then 0
    else
      var parsed := Numbers.ParseI32(args[0]);
      if parsed.Some? then parsed.value else 0
  }

  /** What `type` prints for its arguments: only the first one is looked up. */
  function TypeReport(args: seq<string>, executables: map<string, string>): (report: string)
    ensures report != "" && Text.WholeLines(report)
    ensures args != [] ==> |args[0]| < |report| && report[..|args[0]|] == args[0]
  {
    if args == [] then "type: missing operand\n"
    else
      var arg := args[0];
      if IsBuiltin(arg) then arg + " is a shell builtin\n"
      else if arg in executables then arg + " is " + executables[arg] + "\n"
      else arg + ": not found\n"
  }

  /** `run_builtin`: the outcome of one builtin with its arguments. */
  function RunBuiltin(name: string, args: seq<string>, executables: map<string, string>, os: Os): (out: Outcome)
    ensures out.Printed? && out.output.Some? ==> out.output.value != "" && Text.WholeLines(out.output.value)
    ensures out.Exited? ==> name == "exit" && Numbers.I32_MIN <= out.code <= Numbers.I32_MAX
  {
    match name
    case "echo" => Printed(Some(Text.Join(args, ' ') + "\n"))
    case "pwd" => Printed(if os.cwd.Some? then Some(os.cwd.value + "\n") else None)
    case "exit" => Exited(ExitCode(args))
    case "type" => Printed(Some(TypeReport(args, executables)))
    case "cd" =>
      if args != [] && args[0] in os.cdErrors then
        Printed(Some("cd: " + args[0] + ": " + os.cdErrors[args[0]] + "\n"))
      else Printed(None)
    case _ => Printed(None)
  }

  /**
    `echo` prints its arguments so that splitting the line at spaces (less
    the final newline) gives them back, when none of them holds a space.
   */
  lemma EchoRoundTrip(args: seq<string>, executables: map<string, string>, os: Os)
    requires |args| >= 1
    requires forall i :: 0 <= i < |args| ==> ' ' !in args[i]
    ensures var out := RunBuiltin("echo", args, executables, os);
      && out.Printed? && out.output.Some?
      && |out.output.value| >= 1 && out.output.value[|out.output.value| - 1] == '\n'
      && Text.Split(out.output.value[..|out.output.value| - 1], ' ') == args
  {
    var line := Text.Join(args, ' ');
    assert (line + "\n")[..|line + "\n"| - 1] == line;
    Text.SplitJoin(args, ' ');
  }

  /** `echo` is a builtin and prints its arguments joined by spaces, then a newline. */
  lemma EchoPrints(args: seq<string>, executables: map<string, string>, os: Os)
    ensures IsBuiltin(ECHO)
    ensures RunBuiltin(ECHO, args, executables, os) == Printed(Some(Text.Join(args, ' ') + "\n"))
  {
    assert BUILTINS[0] == ECHO;
  }

  /** Only `exit` ends the shell; every other name prints or stays silent. */
  lemma ExitsOnlyOnExit(name: string, args: seq<string>, executables: map<string, string>, os: Os)
    ensures RunBuiltin(name, args, executables, os).Exited? <==> name == "exit"
  {
  }

  /** `exit n` ends the shell with status `n` for every `n` an `i32` holds. */
  lemma ExitWithStatus(n: int, rest: seq<string>, executables: map<string, string>, os: Os)
    requires Numbers.I32_MIN <= n <= Numbers.I32_MAX
    ensures RunBuiltin("exit", [Numbers.FormatInt(n)] + rest, executables, os) == Exited(n)
  {
    Numbers.ParseFormat(n);
  }

  /**
    `exit` with no argument, or with one that is not an `i32` (a word with a
    character other than a digit after its first, or a value out of range),
    ends the shell with status 0.
   */
  lemma ExitFallsBackToZero(args: seq<string>, executables: map<string, string>, os: Os)
    requires args == [] || Numbers.ParseI32(args[0]).None?
    ensures RunBuiltin("exit", args, executables, os) == Exited(0)
  {
  }

  /** A word with a non-digit after its first character is not an exit status. */
  lemma ExitIgnoresMalformed(args: seq<string>, k: nat)
    requires args != [] && 1 <= k < |args[0]| && !Numbers.IsDigit(args[0][k])
    ensures ExitCode(args) == 0
  {
  }

  /**
    `type` without an argument reports the missing operand. With one, it
    names a builtin as a builtin even when an executable of the same name is
    on the search path; otherwise it prints the table's path, and "not found"
    for a name the table does not hold.
   */
  lemma TypeReportCases(arg: string, rest: seq<string>, executables: map<string, string>)
    ensures TypeReport([], executables) == "type: missing operand\n"
    ensures IsBuiltin(arg) ==> TypeReport([arg] + rest, executables) == arg + " is a shell builtin\n"
    ensures !IsBuiltin(arg) && arg in executables ==>
      TypeReport([arg] + rest, executables) == arg + " is " + executables[arg] + "\n"
    ensures !IsBuiltin(arg) && arg !in executables ==> TypeReport([arg] + rest, executables) == arg + ": not found\n"
  {
  }

  /**
    `history` is listed among the builtins but has no case of its own in
    `run_builtin`: it prints nothing, like a name that is not a builtin.
   */
  lemma HistoryPrintsNothing(args: seq<string>, executables: map<string, string>, os: Os)
    ensures IsBuiltin("history")
    ensures RunBuiltin("history", args, executables, os) == Printed(None)
  {
  }

  /** A name without a case of its own prints nothing and does not end the shell. */
  lemma OtherNamesPrintNothing(name: string, args: seq<string>, executables: map<string, string>, os: Os)
    requires name != "echo" && name != "pwd" && name != "exit" && name != "type" && name != "cd"
    ensures RunBuiltin(name, args, executables, os) == Printed(None)
  {
  }

  /** `cd` prints only an error, and only for a directory it cannot enter. */
  lemma CdPrintsOnlyErrors(args: seq<string>, executables: map<string, string>, os: Os)
    ensures var out := RunBuiltin("cd", args, executables, os);
      && out.Printed?
      && (out.output.Some? <==> args != [] && args[0] in os.cdErrors)
  {
  }
}
