/**
  Running one input line (`parse_command` in src/main.rs): the line's words
  are parsed, the executables table is loaded, and the commands run in order,
  the i-th command with the i-th argument list. A builtin's text is printed;
  an executable on the search path is recognised but not started; any other
  name prints "<name>: command not found". `exit` ends the shell at once, so
  nothing after it runs.
 */
module Shell {
  import opened Wrappers
  import Parser
  import Executables
  import Builtins
  import Text

  /** What a line prints, in order, and the exit status if it ended the shell. */
  datatype Transcript = Transcript(output: string, exitCode: Option<int>)

  /** One command of the loop in `parse_command`. */
  function Step(cmd: string, args: seq<string>, executables: map<string, string>, os: Builtins.Os): (out: Builtins.Outcome)
    ensures Text.WholeLines(Printed(out))
    ensures out.Exited? ==> cmd == "exit"
  {
    if Builtins.IsBuiltin(cmd) then Builtins.RunBuiltin(cmd, args, executables, os)
    else if cmd in executables then Builtins.Printed(None)
    else Builtins.Printed(Some(cmd + ": command not found\n"))
  }

  /** Text printed before a transcript. */
  function Prepend(s: string, t: Transcript): Transcript
  {
    t.(output := s + t.output)
  }

  /** Printing `a` and then `b` is printing `a + b`. */
  lemma PrependTwice(a: string, b: string, t: Transcript)
    ensures Prepend(a, Prepend(b, t)) == Prepend(a + b, t)
  {
    assert a + (b + t.output) == (a + b) + t.output;
  }

  /** The text a printed outcome adds. */
  function Printed(o: Builtins.Outcome): string
  {
    if o.Printed? && o.output.Some? then o.output.value else ""
  }

  /** The outcome of each command, with the argument list at its position. */
  function Outcomes(cmds: seq<string>, args: seq<seq<string>>, executables: map<string, string>, os: Builtins.Os)
    : (outs: seq<Builtins.Outcome>)
    requires |cmds| <= |args|
    ensures |outs| == |cmds|
  {
    if cmds == [] then []
    else [Step(cmds[0], args[0], executables, os)] + Outcomes(cmds[1..], args[1..], executables, os)
  }

  /** Outcomes taken in order: printed text accumulates, and the first exit ends the run. */
  function Run(outs: seq<Builtins.Outcome>): Transcript
  {
    if outs == [] then Transcript("", None)
    else if outs[0].Exited? then Transcript("", Some(outs[0].code))
    else Prepend(Printed(outs[0]), Run(outs[1..]))
  }

  /** Commands run in order with the argument lists at the same positions, up to the first `exit`. */
  function Dispatch(cmds: seq<string>, args: seq<seq<string>>, executables: map<string, string>, os: Builtins.Os): Transcript
    requires |cmds| <= |args|
  {
    Run(Outcomes(cmds, args, executables, os))
  }

  /** One turn of the loop, from position `i`. */
  lemma DispatchStep(cmds: seq<string>, args: seq<seq<string>>, i: nat, executables: map<string, string>, os: Builtins.Os)
    requires i < |cmds| <= |args|
    ensures var o := Step(cmds[i], args[i], executables, os);
      Dispatch(cmds[i..], args[i..], executables, os) ==
        if o.Exited? then Transcript("", Some(o.code))
        else Prepend(Printed(o), Dispatch(cmds[i + 1..], args[i + 1..], executables, os))
  {
    assert cmds[i..][1..] == cmds[i + 1..] && args[i..][1..] == args[i + 1..];
    var outs := Outcomes(cmds[i..], args[i..], executables, os);
    assert outs[0] == Step(cmds[i], args[i], executables, os);
    assert outs[1..] == Outcomes(cmds[i + 1..], args[i + 1..], executables, os);
  }

  /** A single command runs as its one step, with the first argument list. */
  lemma DispatchOne(cmd: string, args: seq<seq<string>>, executables: map<string, string>, os: Builtins.Os)
    requires |args| >= 1
    ensures var o := Step(cmd, args[0], executables, os);
      Dispatch([cmd], args, executables, os) ==
        if o.Exited? then Transcript("", Some(o.code)) else Transcript(Printed(o), None)
  {
    assert [cmd][1..] == [];
    var o := Step(cmd, args[0], executables, os);
    var outs := Outcomes([cmd], args, executables, os);
    assert outs == [o] + Outcomes([], args[1..], executables, os);
    assert outs[0] == o && outs[1..] == [];
    assert Run(outs[1..]) == Transcript("", None);
    assert Printed(o) + "" == Printed(o);
  }

  /** Outcomes that each print whole lines make a run that prints whole lines. */
  lemma {:induction false} RunWholeLines(outs: seq<Builtins.Outcome>)
    requires forall i :: 0 <= i < |outs| ==> Text.WholeLines(Printed(outs[i]))
    ensures Text.WholeLines(Run(outs).output)
  {
    if outs != [] && !outs[0].Exited? {
      assert forall i :: 0 <= i < |outs| - 1 ==> outs[1..][i] == outs[i + 1];
      RunWholeLines(outs[1..]);
      Text.WholeLinesConcat(Printed(outs[0]), Run(outs[1..]).output);
    }
  }

  /** Whatever the commands, what they print is empty or ends in a newline. */
  lemma DispatchPrintsWholeLines(cmds: seq<string>, args: seq<seq<string>>, executables: map<string, string>,
                                 os: Builtins.Os)
    requires |cmds| <= |args|
    ensures Text.WholeLines(Dispatch(cmds, args, executables, os).output)
  {
    var outs := Outcomes(cmds, args, executables, os);
    forall i | 0 <= i < |outs|
      ensures Text.WholeLines(Printed(outs[i]))
    {
      OutcomeAt(cmds, args, i, executables, os);
    }
    RunWholeLines(outs);
  }

  /** The whole line as `parse_command` runs it. */
  function RunLine(words: seq<string>, executables: map<string, string>, os: Builtins.Os): Transcript
  {
    var p := Parser.Parse(words);
    Parser.ParseCounts(words);
    Dispatch(p.cmds, p.args, executables, os)
  }

  /** Every line prints whole lines, so the next prompt starts a line of its own. */
  lemma LinePrintsWholeLines(words: seq<string>, executables: map<string, string>, os: Builtins.Os)
    ensures Text.WholeLines(RunLine(words, executables, os).output)
  {
    var p := Parser.Parse(words);
    Parser.ParseCounts(words);
    DispatchPrintsWholeLines(p.cmds, p.args, executables, os);
  }

  /** The line run with the corrected argument lists, one per command. */
  function RunLineFixed(words: seq<string>, executables: map<string, string>, os: Builtins.Os): Transcript
  {
    var p := Parser.ParseFixed(words);
    Dispatch(p.cmds, p.args, executables, os)
  }

  /**
    `parse_command`: load the table, parse the line, then run each command.
    The result is the reference run of the line against the table the search
    path gives.
   */
  method ParseCommand(words: seq<string>, pathVar: Option<string>, readDir: string -> Option<seq<Executables.Entry>>,
                      os: Builtins.Os)
    returns (t: Transcript)
    ensures t == RunLine(words, Executables.Table(pathVar, readDir), os)
  {
    var executables := Executables.LoadExecutables(pathVar, readDir);
    var cmds, args, _, _, _ := Parser.ParseArguments(words);
    Parser.ParseCounts(words);
    t := RunCommands(cmds, args, executables, os);
  }

  /**
    The loop of `parse_command`: each command with the argument list at its
    position; printed text is collected in order and `exit` ends the run.
   */
  method RunCommands(cmds: seq<string>, args: seq<seq<string>>, executables: map<string, string>, os: Builtins.Os)
    returns (t: Transcript)
    requires |cmds| <= |args|
    ensures t == Dispatch(cmds, args, executables, os)
  {
    ghost var all := Dispatch(cmds, args, executables, os);
    assert cmds[0..] == cmds && args[0..] == args;
    var output := "";
    for i := 0 to |cmds|
      invariant all == Prepend(output, Dispatch(cmds[i..], args[i..], executables, os))
    {
      var cmd := cmds[i];
      var cmdArgs := args[i];
      DispatchStep(cmds, args, i, executables, os);
      ghost var rest := Dispatch(cmds[i + 1..], args[i + 1..], executables, os);
      ghost var before := output;
      ghost var added := Printed(Step(cmd, cmdArgs, executables, os));
      if Builtins.IsBuiltin(cmd) {
        var outcome := Builtins.RunBuiltin(cmd, cmdArgs, executables, os);
        assert Step(cmd, cmdArgs, executables, os) == outcome;
        if outcome.Exited? {
          return Transcript(output, Some(outcome.code));
        }
        if outcome.output.Some? {
          output := output + outcome.output.value;
        }
      } else if cmd in executables {
      } else {
        output := output + cmd + ": command not found\n";
      }
      assert output == before + added;
      PrependTwice(before, added, rest);
    }
    assert cmds[|cmds|..] == [];
    return Transcript(output, None);
  }

  // ---------------------------------------------------------------------------
  // Properties of a run

  /** Running two lists of outcomes is running the first, then, unless it exited, the second. */
  lemma {:induction false} RunConcat(o1: seq<Builtins.Outcome>, o2: seq<Builtins.Outcome>)
    ensures Run(o1 + o2) == if Run(o1).exitCode.Some? then Run(o1) else Prepend(Run(o1).output, Run(o2))
  {
    if o1 == [] {
      assert o1 + o2 == o2;
    } else {
      assert (o1 + o2)[0] == o1[0];
      assert (o1 + o2)[1..] == o1[1..] + o2;
      if !o1[0].Exited? {
        RunConcat(o1[1..], o2);
        PrependTwice(Printed(o1[0]), Run(o1[1..]).output, Run(o2));
      }
    }
  }

  /** The outcomes of two lists of commands are those of each, one after the other. */
  lemma {:induction false} OutcomesConcat(c1: seq<string>, a1: seq<seq<string>>, c2: seq<string>, a2: seq<seq<string>>,
                                          executables: map<string, string>, os: Builtins.Os)
    requires |c1| == |a1| && |c2| <= |a2|
    ensures Outcomes(c1 + c2, a1 + a2, executables, os) == Outcomes(c1, a1, executables, os) + Outcomes(c2, a2, executables, os)
  {
    if c1 == [] {
      assert c1 + c2 == c2 && a1 + a2 == a2;
    } else {
      assert (c1 + c2)[0] == c1[0] && (a1 + a2)[0] == a1[0];
      assert (c1 + c2)[1..] == c1[1..] + c2 && (a1 + a2)[1..] == a1[1..] + a2;
      OutcomesConcat(c1[1..], a1[1..], c2, a2, executables, os);
    }
  }

  /** Outcome `k` is that of command `k` with argument list `k`. */
  lemma {:induction false} OutcomeAt(cmds: seq<string>, args: seq<seq<string>>, k: nat, executables: map<string, string>,
                                     os: Builtins.Os)
    requires k < |cmds| <= |args|
    ensures Outcomes(cmds, args, executables, os)[k] == Step(cmds[k], args[k], executables, os)
  {
    if k > 0 {
      OutcomeAt(cmds[1..], args[1..], k - 1, executables, os);
      var outs := Outcomes(cmds, args, executables, os);
      assert outs[1..] == Outcomes(cmds[1..], args[1..], executables, os);
      assert outs[k] == outs[1..][k - 1];
    }
  }

  /** The outcomes of the first `k` commands are the first `k` outcomes. */
  lemma OutcomesPrefix(cmds: seq<string>, args: seq<seq<string>>, k: nat, executables: map<string, string>, os: Builtins.Os)
    requires k <= |cmds| <= |args|
    ensures Outcomes(cmds, args, executables, os)[..k] == Outcomes(cmds[..k], args[..k], executables, os)
  {
    assert cmds[..k] + cmds[k..] == cmds && args[..k] + args[k..] == args;
    OutcomesConcat(cmds[..k], args[..k], cmds[k..], args[k..], executables, os);
  }

  /** Running two lists of commands is running the first, then, unless it exited, the second. */
  lemma DispatchConcat(c1: seq<string>, a1: seq<seq<string>>, c2: seq<string>, a2: seq<seq<string>>,
                       executables: map<string, string>, os: Builtins.Os)
    requires |c1| == |a1| && |c2| <= |a2|
    ensures var first := Dispatch(c1, a1, executables, os);
      Dispatch(c1 + c2, a1 + a2, executables, os) ==
        if first.exitCode.Some? then first else Prepend(first.output, Dispatch(c2, a2, executables, os))
  {
    OutcomesConcat(c1, a1, c2, a2, executables, os);
    RunConcat(Outcomes(c1, a1, executables, os), Outcomes(c2, a2, executables, os));
  }

  /** The position of the first `exit`, if the commands hold one. */
  function FirstExit(cmds: seq<string>): (k: nat)
    ensures k <= |cmds|
    ensures k < |cmds| ==> cmds[k] == "exit"
    ensures forall j :: 0 <= j < k ==> cmds[j] != "exit"
  {
    if cmds == [] || cmds[0] == "exit" then 0 else 1 + FirstExit(cmds[1..])
  }

  /** The position of the first exit among outcomes, if there is one. */
  function FirstExited(outs: seq<Builtins.Outcome>): (k: nat)
    ensures k <= |outs|
    ensures k < |outs| ==> outs[k].Exited?
    ensures forall j :: 0 <= j < k ==> !outs[j].Exited?
  {
    if outs == [] || outs[0].Exited? then 0 else 1 + FirstExited(outs[1..])
  }

  /** A run exits exactly when some outcome is an exit; the text is that of the outcomes before the first. */
  lemma {:induction false} RunStopsAtExit(outs: seq<Builtins.Outcome>)
    ensures Run(outs).exitCode.Some? <==> FirstExited(outs) < |outs|
    ensures FirstExited(outs) < |outs| ==>
      Run(outs).exitCode == Some(outs[FirstExited(outs)].code) && Run(outs).output == Run(outs[..FirstExited(outs)]).output
  {
    if outs != [] {
      if outs[0].Exited? {
        assert outs[..0] == [];
      } else {
        RunStopsAtExit(outs[1..]);
        var k := FirstExited(outs[1..]);
        if k < |outs| - 1 {
          assert outs[..k + 1][0] == outs[0];
          assert outs[..k + 1][1..] == outs[1..][..k];
        }
      }
    }
  }

  /** A command exits exactly when it is `exit`, with the status its arguments give. */
  lemma StepExits(cmd: string, args: seq<string>, executables: map<string, string>, os: Builtins.Os)
    ensures Step(cmd, args, executables, os).Exited? <==> cmd == "exit"
    ensures Step(cmd, args, executables, os).Exited? ==> Step(cmd, args, executables, os).code == Builtins.ExitCode(args)
  {
    Builtins.ExitsOnlyOnExit(cmd, args, executables, os);
    if cmd == "exit" {
      assert Builtins.BUILTINS[1] == cmd;
    }
  }

  /** The first exiting outcome is that of the first `exit`. */
  lemma {:induction false} OutcomesFirstExit(cmds: seq<string>, args: seq<seq<string>>, executables: map<string, string>,
                                             os: Builtins.Os)
    requires |cmds| <= |args|
    ensures FirstExited(Outcomes(cmds, args, executables, os)) == FirstExit(cmds)
  {
    if cmds != [] {
      StepExits(cmds[0], args[0], executables, os);
      var outs := Outcomes(cmds, args, executables, os);
      assert outs[0] == Step(cmds[0], args[0], executables, os);
      assert outs[1..] == Outcomes(cmds[1..], args[1..], executables, os);
      if cmds[0] != "exit" {
        OutcomesFirstExit(cmds[1..], args[1..], executables, os);
      }
    }
  }

  /** An `exit` command's outcome is an exit with the status its arguments give. */
  lemma ExitOutcome(cmds: seq<string>, args: seq<seq<string>>, k: nat, executables: map<string, string>, os: Builtins.Os)
    requires k < |cmds| <= |args| && cmds[k] == "exit"
    ensures Outcomes(cmds, args, executables, os)[k] == Builtins.Exited(Builtins.ExitCode(args[k]))
  {
    OutcomeAt(cmds, args, k, executables, os);
    StepExits(cmds[k], args[k], executables, os);
  }

  /**
    The run ends the shell exactly when some command is `exit`; the status is
    the first `exit`'s, and the text printed is what the commands before it
    print, so nothing after the first `exit` runs.
   */
  lemma DispatchStopsAtExit(cmds: seq<string>, args: seq<seq<string>>, executables: map<string, string>, os: Builtins.Os)
    requires |cmds| <= |args|
    ensures var t := Dispatch(cmds, args, executables, os);
      && (t.exitCode.Some? <==> "exit" in cmds)
      && ("exit" in cmds ==>
            var k := FirstExit(cmds);
            && t.exitCode == Some(Builtins.ExitCode(args[k]))
            && t.output == Dispatch(cmds[..k], args[..k], executables, os).output)
  {
    var outs := Outcomes(cmds, args, executables, os);
    var k := FirstExit(cmds);
    OutcomesFirstExit(cmds, args, executables, os);
    RunStopsAtExit(outs);
    assert "exit" in cmds <==> k < |cmds|;
    if k < |cmds| {
      ExitOutcome(cmds, args, k, executables, os);
      OutcomesPrefix(cmds, args, k, executables, os);
    }
  }

  /** A scan of words without operators takes all of them as arguments. */
  lemma ScanWithoutOperators(xs: seq<string>)
    requires forall i :: 0 <= i < |xs| ==> !Parser.IsRedirectMode(xs[i])
    ensures Parser.ScanArgs(xs) == Parser.GroupScan(xs, None)
  {
    Parser.ScanArgsMeaning(xs);
  }

  /** A line with no words (a blank line, or one the word splitter rejects) prints nothing. */
  lemma EmptyLine(executables: map<string, string>, os: Builtins.Os)
    ensures RunLine([], executables, os) == Transcript("", None)
  {
    assert Parser.Parts([]) == [];
  }

  /** A line holding one command with plain arguments runs that one command. */
  lemma RunSimpleLine(cmd: string, xs: seq<string>, executables: map<string, string>, os: Builtins.Os)
    requires cmd != Parser.PIPE && !Parser.IsRedirectMode(cmd)
    requires Parser.PIPE !in xs && forall i :: 0 <= i < |xs| ==> !Parser.IsRedirectMode(xs[i])
    ensures var t := RunLine([cmd] + xs, executables, os);
      var o := Step(cmd, xs, executables, os);
      t == if o.Exited? then Transcript("", Some(o.code)) else Transcript(Printed(o), None)
  {
    var words := [cmd] + xs;
    assert words[1..] == xs && words[0] == cmd;
    assert forall i :: 1 <= i < |words| ==> words[i] == xs[i - 1];
    assert Parser.PIPE !in words;
    Parser.ParseSimpleCommand(words);
    DispatchOne(cmd, [xs], executables, os);
  }

  /** A name that is neither a builtin nor on the search path is reported as not found. */
  lemma UnknownCommand(cmd: string, xs: seq<string>, executables: map<string, string>, os: Builtins.Os)
    requires cmd != Parser.PIPE && !Parser.IsRedirectMode(cmd)
    requires Parser.PIPE !in xs && forall i :: 0 <= i < |xs| ==> !Parser.IsRedirectMode(xs[i])
    requires !Builtins.IsBuiltin(cmd) && cmd !in executables
    ensures RunLine([cmd] + xs, executables, os) == Transcript(cmd + ": command not found\n", None)
  {
    RunSimpleLine(cmd, xs, executables, os);
  }

  /** An executable on the search path is recognised and prints nothing: it is not started. */
  lemma ExternalCommandIsSilent(cmd: string, xs: seq<string>, executables: map<string, string>, os: Builtins.Os)
    requires cmd != Parser.PIPE && !Parser.IsRedirectMode(cmd)
    requires Parser.PIPE !in xs && forall i :: 0 <= i < |xs| ==> !Parser.IsRedirectMode(xs[i])
    requires !Builtins.IsBuiltin(cmd) && cmd in executables
    ensures RunLine([cmd] + xs, executables, os) == Transcript("", None)
  {
    RunSimpleLine(cmd, xs, executables, os);
  }

  /** `echo` is neither "|" nor a redirection operator. */
  lemma EchoIsPlain()
    ensures Builtins.ECHO != Parser.PIPE && !Parser.IsRedirectMode(Builtins.ECHO)
  {
  }

  /** `echo` with plain arguments prints them joined by spaces, with a newline. */
  lemma EchoLine(xs: seq<string>, executables: map<string, string>, os: Builtins.Os)
    requires Parser.PIPE !in xs && forall i :: 0 <= i < |xs| ==> !Parser.IsRedirectMode(xs[i])
    ensures RunLine([Builtins.ECHO] + xs, executables, os) == Transcript(Text.Join(xs, ' ') + "\n", None)
  {
    EchoIsPlain();
    Builtins.EchoPrints(xs, executables, os);
    assert Step(Builtins.ECHO, xs, executables, os) == Builtins.Printed(Some(Text.Join(xs, ' ') + "\n"));
    RunSimpleLine(Builtins.ECHO, xs, executables, os);
  }

  /**
    `type` on the table `load_executables` builds reports, for a name that is
    not a builtin, the path of the first executable of that name along the
    search path.
   */
  lemma TypeFindsFirstOnPath(n: string, rest: seq<string>, pathVar: Option<string>,
                             readDir: string -> Option<seq<Executables.Entry>>)
    requires !Builtins.IsBuiltin(n)
    ensures var first := Executables.FirstExecutable(Executables.SearchEntries(pathVar, readDir), n);
      Builtins.TypeReport([n] + rest, Executables.Table(pathVar, readDir)) ==
        if first.Some? then n + " is " + first.value + "\n" else n + ": not found\n"
  {
    Builtins.TypeReportCases(n, rest, Executables.Table(pathVar, readDir));
  }

  // ---------------------------------------------------------------------------
  // Empty groups

  /**
    As written, a line starting with "|" runs its command with the argument
    list of the empty group before it: `| echo` and its arguments prints an
    empty line.
   */
  lemma LeadingPipeLosesArguments(xs: seq<string>, executables: map<string, string>, os: Builtins.Os)
    requires Parser.PIPE !in xs && forall i :: 0 <= i < |xs| ==> !Parser.IsRedirectMode(xs[i])
    ensures RunLine([Parser.PIPE, Builtins.ECHO] + xs, executables, os) == Transcript("\n", None)
  {
    var w := [Builtins.ECHO] + xs;
    EchoIsPlain();
    LeadingPipeWords(Builtins.ECHO, xs);
    Parser.ParseLeadingPipe(w);
    var p := Parser.Parse([Parser.PIPE] + w);
    assert p.cmds == [Builtins.ECHO];
    assert Dispatch([Builtins.ECHO], p.args, executables, os) == Transcript("\n", None) by {
      DispatchOne(Builtins.ECHO, p.args, executables, os);
      Builtins.EchoPrints([], executables, os);
      assert Text.Join([], ' ') == "";
    }
    var line := [Parser.PIPE, Builtins.ECHO] + xs;
    assert line == [Parser.PIPE] + w;
    assert RunLine(line, executables, os) == Dispatch([Builtins.ECHO], p.args, executables, os);
  }

  /** With the fix, the same line prints the arguments. */
  lemma LeadingPipeFixed(xs: seq<string>, executables: map<string, string>, os: Builtins.Os)
    requires Parser.PIPE !in xs && forall i :: 0 <= i < |xs| ==> !Parser.IsRedirectMode(xs[i])
    ensures RunLineFixed([Parser.PIPE, Builtins.ECHO] + xs, executables, os) == Transcript(Text.Join(xs, ' ') + "\n", None)
  {
    var w := [Builtins.ECHO] + xs;
    EchoIsPlain();
    LeadingPipeWords(Builtins.ECHO, xs);
    Parser.ParseFixedLeadingPipe(w);
    ScanWithoutOperators(xs);
    var p := Parser.ParseFixed([Parser.PIPE] + w);
    assert p.cmds == [Builtins.ECHO] && p.args == [xs];
    var expected := Transcript(Text.Join(xs, ' ') + "\n", None);
    DispatchEcho(xs, executables, os);
    var line := [Parser.PIPE, Builtins.ECHO] + xs;
    assert line == [Parser.PIPE] + w;
    assert RunLineFixed(line, executables, os) == Dispatch([Builtins.ECHO], [xs], executables, os);
  }

  /** `echo` alone prints its arguments joined by spaces. */
  lemma DispatchEcho(xs: seq<string>, executables: map<string, string>, os: Builtins.Os)
    ensures Dispatch([Builtins.ECHO], [xs], executables, os) == Transcript(Text.Join(xs, ' ') + "\n", None)
  {
    Builtins.EchoPrints(xs, executables, os);
    assert Step(Builtins.ECHO, xs, executables, os) == Builtins.Printed(Some(Text.Join(xs, ' ') + "\n"));
    DispatchOne(Builtins.ECHO, [xs], executables, os);
  }

  /** The words after a leading "|" form one group. */
  lemma LeadingPipeWords(cmd: string, xs: seq<string>)
    requires cmd != Parser.PIPE && Parser.PIPE !in xs
    ensures var w := [cmd] + xs;
      && w != [] && Parser.PIPE !in w && w[1..] == xs
      && [Parser.PIPE, cmd] + xs == [Parser.PIPE] + w
  {
    var w := [cmd] + xs;
    assert w[1..] == xs;
    assert forall i :: 1 <= i < |w| ==> w[i] == xs[i - 1];
  }

  /** The fix changes nothing on a line without a leading or doubled "|". */
  lemma FixedAgreesWhenAligned(words: seq<string>, executables: map<string, string>, os: Builtins.Os)
    requires !Parser.LeadingOrDoubledPipe(words)
    ensures RunLineFixed(words, executables, os) == RunLine(words, executables, os)
  {
    Parser.EmptyPartIff(words);
    Parser.FixedAgrees(Parser.Parts(words));
  }
}
