# A verified model of a small Rust shell's front end

This project models the command core of a small interactive shell written in
Rust (`src/main.rs`), in Dafny, and proves properties of the model. The model
covers four parts:

- **The pipeline and redirection parser** (`parse_arguments`). It cuts the
  words of a line into groups at `|` words and takes the first word of each
  group as a command. The words after the command become arguments, up to the
  first of the six operators `1>`, `2>`, `>`, `>>`, `1>>`, `2>>`. The word after
  that operator is the redirection target.
- **The builtins** (`run_builtin`): `echo`, `pwd`, `exit`, `type` and `cd`.
  `history` is also listed as a builtin.
- **The dispatch loop** (`parse_command`). It runs each command in order with
  the argument list at the same position. A builtin prints its text. A program
  on the search path is recognised but not started. Any other name prints
  "command not found".
- **The executables table** (`load_executables`). It walks the directories of
  `PATH` in order, and for each name the first executable found wins.

The modules follow the program:

- `Parser` (parser.dfy) holds the parser. Its method `ParseArguments` keeps
  the source's two loops and its queue-popping inner loop. It is proved equal
  to the reference function `Parse`, and the properties are proved about
  `Parse`.
- `Builtins` (builtins.dfy) holds `run_builtin`, which is a pure function.
- `Executables` (executables.dfy) holds `load_executables` as a nested-loop
  method over abstract directory listings. It is proved to build exactly the
  table `Table` describes.
- `Shell` (shell.dfy) holds `parse_command` as a method over the two others.
  It is proved to produce the transcript of the reference function `RunLine`.
- Three helper modules exist because the shell relies on Rust library
  behaviour:
  - `Text` (text.dfy): `join` and `str::split` on one character.
  - `Numbers` (numbers.dfy): parsing an `i32` and decimal formatting.
  - `Wrappers` (wrappers.dfy): `Option`.

The shell works on the words the word splitter (`shlex::split`) returns, so
quoting is already resolved. A word is a pipe or an operator only when it is
exactly `|` or one of the six operators. Printing is modelled as a transcript:
the text a line prints, in order, and the exit status if `exit` ended the
shell.

The operating system appears as parameters:

- the value of `PATH`, or nothing when it is unset;
- a directory listing function that gives, for each entry, its name, path,
  whether it is a regular file, and whether its permissions are read-only;
- the working directory;
- the error `cd` meets for a given directory.

These are fixed for the whole line.

Where the design description and the code disagree, the model follows the code:

- **Where the redirection comes from.** The description keeps only a
  redirection found in the last group. The code overwrites `filename` and
  `redirect_mode` in every group, so the last redirection completed in any
  group wins (`Parser.LastRedirectWins`, `Parser.ParseRedirect`).
- **Empty groups.** The description drops empty groups (leading, trailing or
  doubled `|`). The code drops only a trailing one (`Parser.LastGroupEmpty`,
  `Parser.EmptyPartIff`). Each surviving empty group pushes an argument list
  but no command (`Parser.ParseCounts`); see "Findings".
- **Operators glued to their target.** The description's example
  `echo "a b" 'c|d' 1>out.txt` yields a redirection. The code matches
  operators only as whole words, so `1>out.txt`, and any operator glued to
  a target that does not start with `>`, stays an argument
  (`Parser.ParseGluedOperator`). With the operator as a word of its own, the
  target is taken (`Parser.ParseRedirected`).
- **`pwd` failing.** The description reports the failure as text. The code
  prints nothing when the working directory cannot be read
  (`Builtins.RunBuiltin`).

## Model

| member | source | states |
|---|---|---|
| Text.Join | src/main.rs:46 | joining has the pieces' total length plus one separator between each two neighbours, and starts with the first piece |
| Text.Split | src/main.rs:27 | splitting the search path gives at least one piece, and no piece holds the separator |
| Text.JoinSplit | src/main.rs:27 | the pieces of the search path, joined by the separator, give back the text exactly |
| Text.SplitJoin | src/main.rs:46 | strings without the separator, joined by it, split back into the same strings |
| Text.WholeLinesConcat | src/main.rs:153 | text made of whole lines followed by more whole lines is still whole lines |
| Numbers.ParseI32 | src/main.rs:50 | a parsed `i32` lies in the 32-bit range; the text is a digit string with at most one leading sign; a negative value needs a '-' |
| Numbers.ParseFormat | src/main.rs:50 | every 32-bit value, written in decimal, parses back to itself |
| Numbers.ParseOutOfRange | src/main.rs:50 | every value outside the 32-bit range, written in decimal, fails to parse |
| Numbers.ParseSigns | src/main.rs:50 | every digit string parses to its value when that fits in an `i32`; a leading '+' changes nothing; a leading '-' negates the value, which fits down to -2^31 |
| Numbers.DigitsLeadingZero | src/main.rs:50 | a leading zero does not change the value of a digit string |
| Numbers.ParseLeadingZero | src/main.rs:50 | a leading zero, after no sign, '+' or '-', does not change what a digit string parses to |
| Numbers.ParseMalformed | src/main.rs:50 | the empty string, a lone '+' or '-', and any string with a non-digit other than a leading sign do not parse |
| Parser.GroupsShape | src/main.rs:106-113 | the first loop makes one group more than there are pipe words, and no group holds a pipe word |
| Parser.IntercalateGroups | src/main.rs:106-113 | the groups, joined by pipe words, are the words of the line |
| Parser.GroupsIntercalate | src/main.rs:106-113 | groups without pipe words, joined by pipe words, are cut back into the same groups |
| Parser.GroupsWithoutPipe | src/main.rs:106-113 | a line without a pipe word is one group |
| Parser.LastGroupEmpty | src/main.rs:106-116 | the last group is empty exactly when the line is empty or ends with a pipe word, so only then is it dropped |
| Parser.PartsJoin | src/main.rs:106-116 | the groups the parser keeps, joined by pipe words, give the line back, less one final pipe word if the line ends with one |
| Parser.InnerEmptyGroup | src/main.rs:106-113 | an empty group before the last one exists exactly when the line starts with a pipe word or has two in a row |
| Parser.EmptyPartIff | src/main.rs:106-116 | an empty group survives exactly when the line starts with a pipe word or has two in a row |
| Parser.HasPipeIffSeveralGroups | src/main.rs:101-113 | the line holds a pipe word exactly when it makes more than one group |
| Parser.SplitParts | src/main.rs:103-116 | the first loop builds exactly the groups the reference parse keeps |
| Parser.ScanArgsMeaning | src/main.rs:126-137 | the arguments are the longest operator-free prefix of the words after the command; an operator followed by a word is a redirection to it; scanning stops at the operator either way |
| Parser.ScanStopsAtOperator | src/main.rs:127-133 | plain words followed by an operator are all taken as arguments; the operator and the next word, if any, form the redirection |
| Parser.SourceGroup | src/main.rs:120-124 | the group each command comes from is a non-empty group of the line |
| Parser.CommandsAreHeads | src/main.rs:120-124 | command k is the first word of its source group, and exactly k commands come from the groups before that group |
| Parser.SourceGroupInverse | src/main.rs:120-124 | every non-empty group is the source group of the command at the position given by the commands before it, so no group is skipped, repeated or reordered |
| Parser.CommandsInOrder | src/main.rs:120-124 | every non-empty group gives a command, at the position given by the number of commands before it |
| Parser.CommandsLagAfterEmptyGroup | src/main.rs:108-124 | once an empty group has been kept, a later group's command sits at a smaller position than the group, so it is paired with an earlier group's argument list |
| Parser.CommandsCount | src/main.rs:120-124 | the number of commands is the number of groups less the empty ones |
| Parser.CommandsAligned | src/main.rs:120-124 | without empty groups, command i is the first word of group i |
| Parser.ArgListsAt | src/main.rs:126-138 | argument list i is the scan of group i, empty groups included |
| Parser.ArgListsFreeOfOperators | src/main.rs:118-137 | no argument list holds one of the six operators |
| Parser.LastRedirectWins | src/main.rs:129-132 | the redirection kept is that of the last group completing one, in any group; there is none exactly when no group completes one |
| Parser.LastRedirectMode | src/main.rs:118-131 | a kept redirection mode is always one of the six operators |
| Parser.ParseArguments | src/main.rs:92-142 | the parser's loops return exactly the reference parse: commands, argument lists, filename, mode and pipe flag |
| Parser.ParseCounts | src/main.rs:120-139 | one argument list per group kept and one command per non-empty group, so never more commands than argument lists; equally many exactly when there is no leading or doubled pipe word |
| Parser.ParseHasPipe | src/main.rs:101 | the pipe flag is set exactly when the line has more than one group |
| Parser.ParseRedirect | src/main.rs:128-133 | the filename is set exactly when the mode is; the mode is then an operator; both come from the last completed redirection; neither is set when no group completes one |
| Parser.ParseSimpleCommand | src/main.rs:106-137 | a line without pipe words and operators is one command whose arguments are the remaining words, with no redirection |
| Parser.ParseAligned | src/main.rs:120-138 | without a leading or doubled pipe word, command i and argument list i both come from group i |
| Parser.ParseArgsFreeOfOperators | src/main.rs:126-138 | no argument list of the parse holds an operator |
| Parser.ParseOneGroup | src/main.rs:114-138 | a line without pipe words is one command with the scan of the words after it |
| Parser.ParseRedirected | src/main.rs:127-133 | an operator after plain arguments sets the target to the next word and ignores what follows it; an operator with nothing after it sets neither filename nor mode |
| Parser.GluedModeIsWord | src/main.rs:106-128 | an operator glued to a non-empty target not starting with '>' is neither an operator nor a pipe word |
| Parser.ParseGluedOperator | src/main.rs:118-128 | after plain arguments, an operator glued to such a target is one more argument and sets no redirection, while the operator and target as two words redirect |
| Parser.ParseLeadingPipe | src/main.rs:106-138 | after a leading pipe word the only command is paired by position with the empty group's empty argument list |
| Parser.ParseMisaligned | src/main.rs:106-138 | as written, on every line with a kept empty group before a non-empty group, that group's command is paired with the argument list of an earlier group |
| Parser.ArgListsFixed | src/main.rs:120-138 | with the fix there is exactly one argument list per command |
| Parser.FixedPairsGroups | src/main.rs:120-138 | with the fix, argument list k is the scan of command k's source group |
| Parser.FixedAgrees | src/main.rs:120-138 | without empty groups the fix changes nothing |
| Parser.ParseFixedLeadingPipe | src/main.rs:120-138 | with the fix, a leading pipe word no longer takes the command's arguments away |
| Executables.ExecutableCases | src/main.rs:11-17 | a non-file, a file with unreadable metadata and a read-only file are not executable; a writable regular file is |
| Executables.FirstExecutableMeaning | src/main.rs:29-33 | a name is provided exactly when some entry is an executable of that name; the path is that of the first such entry |
| Executables.FirstExecutableSnoc | src/main.rs:31-33 | a later entry matters only for a name that no earlier entry provides |
| Executables.FirstExecutableStable | src/main.rs:32 | once a name is provided, later entries never overwrite it |
| Executables.TakeEntry | src/main.rs:30-33 | an entry is inserted exactly when it has a name, is executable and its name is new, and the table stays that of the entries seen |
| Executables.EarlierDirectoryWins | src/main.rs:27-33 | a name found in earlier directories keeps that path whatever later directories hold |
| Executables.EmptyPathSearchesOneDirectory | src/main.rs:21-27 | with PATH unset or empty, the search path is the single empty directory name |
| Executables.EmptyPathFindsNothing | src/main.rs:21-28 | with PATH unset or empty, and the empty directory name not listable (as on Unix), the table is empty |
| Executables.Table | src/main.rs:19-41 | the table maps exactly the provided names, each to its first executable's path |
| Executables.LoadExecutables | src/main.rs:19-41 | the nested loops build exactly that table |
| Builtins.ExitCode | src/main.rs:50 | the exit status always lies in the 32-bit range |
| Builtins.TypeReport | src/main.rs:51-61 | the report is one non-empty line, and with an argument it starts with that argument |
| Builtins.RunBuiltin | src/main.rs:43-90 | any text a builtin prints is non-empty and ends in a newline; only `exit` ends the shell, with a 32-bit status |
| Builtins.EchoPrints | src/main.rs:46 | `echo` is a builtin and prints its arguments joined by single spaces, then a newline |
| Builtins.EchoRoundTrip | src/main.rs:46 | what `echo` prints, less the newline and split at spaces, gives back its arguments when none holds a space |
| Builtins.ExitsOnlyOnExit | src/main.rs:43-90 | only `exit` ends the shell; every other name prints text or nothing |
| Builtins.ExitWithStatus | src/main.rs:50 | `exit n` ends the shell with status n for every 32-bit n, whatever follows |
| Builtins.ExitFallsBackToZero | src/main.rs:50 | `exit` with no argument, or with one that is not an `i32`, ends with status 0 |
| Builtins.ExitIgnoresMalformed | src/main.rs:50 | a first argument with a non-digit after its first character gives status 0 |
| Builtins.TypeReportCases | src/main.rs:51-61 | `type` reports a missing operand with no argument; it reports a builtin first, even when the table also holds the name; otherwise it reports the table's path, or "not found" |
| Builtins.HistoryPrintsNothing | src/main.rs:81-88 | `history` is listed as a builtin but prints nothing |
| Builtins.OtherNamesPrintNothing | src/main.rs:88 | a name without a case of its own prints nothing and does not end the shell |
| Builtins.CdPrintsOnlyErrors | src/main.rs:62-80 | `cd` prints text exactly when it has an argument it cannot enter; with no argument it prints nothing |
| Shell.Step | src/main.rs:149-160 | one command prints whole lines, and ends the shell only when it is `exit` |
| Shell.Outcomes | src/main.rs:148-161 | each command yields exactly one outcome |
| Shell.OutcomeAt | src/main.rs:148-151 | outcome i is that of command i with argument list i |
| Shell.OutcomesConcat | src/main.rs:148 | the outcomes of two command lists in a row are those of each, one after the other |
| Shell.OutcomesPrefix | src/main.rs:148 | the first k outcomes are those of the first k commands |
| Shell.RunConcat | src/main.rs:148-161 | two runs of outcomes in a row are one run unless the first exits |
| Shell.RunStopsAtExit | src/main.rs:150-154 | a run exits exactly when some outcome is an exit, with the first one's status and the text of the outcomes before it |
| Shell.StepExits | src/main.rs:50 | a command ends the shell exactly when it is `exit`, with the status its arguments give |
| Shell.OutcomesFirstExit | src/main.rs:148-154 | the first exiting outcome is that of the first `exit` command |
| Shell.ExitOutcome | src/main.rs:50 | an `exit` command's outcome is an exit with the status its arguments give |
| Shell.RunCommands | src/main.rs:148-161 | the loop produces the reference transcript, in order, stopping at `exit` |
| Shell.ParseCommand | src/main.rs:144-162 | with the table loaded from the search path, the line produces the reference transcript |
| Shell.DispatchConcat | src/main.rs:148-161 | commands run left to right: two runs in a row are one run unless the first exits |
| Shell.DispatchStopsAtExit | src/main.rs:148-154 | the shell exits exactly when some command is `exit`, with the first such one's status; only the text of the commands before it is printed |
| Shell.RunWholeLines | src/main.rs:148-161 | outcomes that each print whole lines make a run that prints whole lines |
| Shell.DispatchPrintsWholeLines | src/main.rs:148-161 | whatever the commands, what they print is empty or ends in a newline |
| Shell.LinePrintsWholeLines | src/main.rs:144-162 | every line prints whole lines |
| Shell.EmptyLine | src/main.rs:100-148 | a line without words prints nothing |
| Shell.RunSimpleLine | src/main.rs:148-160 | a line of one command with plain arguments runs that command once with those arguments |
| Shell.UnknownCommand | src/main.rs:158-160 | a name that is neither a builtin nor on the search path prints exactly "name: command not found" |
| Shell.ExternalCommandIsSilent | src/main.rs:155-157 | a program on the search path is recognised and prints nothing |
| Shell.EchoLine | src/main.rs:151-153 | an `echo` line with plain arguments prints them joined by spaces and a newline |
| Shell.TypeFindsFirstOnPath | src/main.rs:51-58 | for a name that is not a builtin, `type` on the loaded table reports the first executable of that name along the search path, or "not found" |
| Shell.LeadingPipeLosesArguments | src/main.rs:120-138 | as written, a leading pipe word before `echo` and plain arguments prints only an empty line |
| Shell.LeadingPipeFixed | src/main.rs:120-138 | with the fix, the same line prints the arguments |
| Shell.FixedAgreesWhenAligned | src/main.rs:120-138 | without a leading or doubled pipe word, the fixed and the written line behave alike |

## Left out

- Word splitting (`shlex::split`): the model starts from its list of words. A line it rejects becomes no words, and the model treats it as the empty line (`Shell.EmptyLine`).
- The environment and file system are parameters: `env::var("PATH")`, `fs::read_dir`, the entries `flatten` keeps, and the file-type and permission checks of `is_executable`. Non-text paths are left out too: `to_str().unwrap()` on a path that is not valid text would panic.
- On Windows the search path separator is ';'. The model uses ':' only.
- Shell.ParseCommand: the operating system is fixed for the whole line. A successful `cd` does not change the directory a later `pwd` in the same line reports, because the working directory is a parameter and not state.
- Builtins.RunBuiltin: for `cd` with an argument, only the printed outcome is modelled. Which directory `home_dir` plus `PathBuf::push` chooses, and the change of working directory, are operating system behaviour. The panic when there is no home directory is also not modelled.
- `std::process::exit` is modelled as the transcript's exit status (an `i32`). The truncation the operating system applies to that status is not modelled.
- Process spawning, piping and file redirection are not modelled, because the source does not implement them: the spawn is commented out, and the parsed filename, mode and pipe flag are unused by `parse_command`.
- `run_builtin` loads the executables table again itself. Since the file system is fixed within a line, the model hands it the table `parse_command` loaded.
- The `history` builtin's own case is commented out in the source. The model covers only the default branch it falls into.
- The prompt loop (`repl`, `main`) is not modelled: it only reads lines, prints a prompt and recurses.

## Findings

| source | as written | input that shows it | evidently intended | confidence | as-written member | corrected member |
|---|---|---|---|---|---|---|
| src/main.rs:120-138 | every kept group pushes an argument list, but only a non-empty group pushes a command, and `parse_command` pairs command i with argument list i | the words of the line "pipe, echo, hi" (a leading pipe word) print an empty line instead of "hi" | each command runs with the arguments of its own group | not executed | Shell.LeadingPipeLosesArguments | Shell.LeadingPipeFixed |
