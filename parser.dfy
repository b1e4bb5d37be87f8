/**
  The pipeline and redirection parser of the shell (`parse_arguments` in
  src/main.rs), taken from the word list onward: the word splitter's output is
  the input here.

  The words are cut into groups at literal "|" words; only a trailing empty
  group is dropped. For each group the first word becomes a command and the
  following words become its arguments until the first redirection operator;
  the word after the operator is the redirection target and the rest of the
  group is ignored. Every group, even an empty one, contributes an argument
  list, and the redirection kept is the last one seen in any group.

  The functions below give that result as values; `ParseArguments` computes
  it with the source's two loops and is proved to agree with `Parse`.
 */
module Parser {
  import opened Wrappers

  const PIPE: string := "|"
  const REDIRECT_MODES: seq<string> := ["1>", "2>", ">", ">>", "1>>", "2>>"]

  predicate IsRedirectMode(w: string) { w in REDIRECT_MODES }

  datatype Redirect = Redirect(mode: string, target: string)

  /** The arguments a group yields and the redirection it ends with, if any. */
  datatype GroupScan = GroupScan(args: seq<string>, redirect: Option<Redirect>)

  /** What `parse_arguments` returns. */
  datatype Parsed = Parsed(
    cmds: seq<string>,
    args: seq<seq<string>>,
    filename: Option<string>,
    redirectMode: string,
    hasPipe: bool)

  function Last<T>(s: seq<T>): T
    requires |s| > 0
  {
    s[|s| - 1]
  }

  function DropLast<T>(s: seq<T>): seq<T>
    requires |s| > 0
  {
    s[..|s| - 1]
  }

  // ---------------------------------------------------------------------------
  // Splitting at "|"

  /**
    The groups between "|" words, the last one included even when it is empty:
    the value of `command_parts` followed by `current_part` after the first
    loop has read the words.
   */
  function Groups(words: seq<string>): (gs: seq<seq<string>>)
    ensures |gs| >= 1
  {
    if words == [] then [[]]
    else
      var prev := Groups(DropLast(words));
      if Last(words) == PIPE then prev + [[]]
      else DropLast(prev) + [Last(prev) + [Last(words)]]
  }

  /** There is one group more than there are "|" words, and no group holds a "|". */
  lemma {:induction false} GroupsShape(words: seq<string>)
    ensures |Groups(words)| == multiset(words)[PIPE] + 1
    ensures forall i :: 0 <= i < |Groups(words)| ==> PIPE !in Groups(words)[i]
  {
    if words != [] {
      var front := DropLast(words);
      GroupsShape(front);
      assert words == front + [Last(words)];
      var g := Groups(front);
      if Last(words) != PIPE {
        forall i | 0 <= i < |Groups(words)|
          ensures PIPE !in Groups(words)[i]
        {
          if i < |g| - 1 {
            assert Groups(words)[i] == g[i];
          } else {
            assert Groups(words)[i] == g[i] + [Last(words)];
          }
        }
      }
    }
  }

  /** Reading one more word: a "|" opens a new group, any other word extends the last. */
  lemma GroupsSnoc(front: seq<string>, w: string)
    ensures Groups(front + [w]) ==
      if w == PIPE then Groups(front) + [[]]
      else DropLast(Groups(front)) + [Last(Groups(front)) + [w]]
  {
    assert DropLast(front + [w]) == front;
  }

  /** The groups the second loop visits: a trailing empty group is dropped, no other. */
  function Parts(words: seq<string>): seq<seq<string>>
  {
    var gs := Groups(words);
    if Last(gs) == [] then DropLast(gs) else gs
  }

  /** The groups written back with a "|" between neighbours. */
  function Intercalate(gs: seq<seq<string>>): seq<string>
  {
    if |gs| == 0 then []
    else if |gs| == 1 then gs[0]
    else Intercalate(DropLast(gs)) + [PIPE] + Last(gs)
  }

  /** Cutting at "|" loses nothing: the groups joined by "|" are the words. */
  lemma {:induction false} IntercalateGroups(words: seq<string>)
    ensures Intercalate(Groups(words)) == words
  {
    if words != [] {
      var front, w := DropLast(words), Last(words);
      var g := Groups(front);
      IntercalateGroups(front);
      assert words == front + [w];
      if w == PIPE {
        assert DropLast(g + [[]]) == g;
      } else {
        var g2 := DropLast(g) + [Last(g) + [w]];
        assert Groups(words) == g2;
        if |g| == 1 {
          assert Intercalate(g2) == g[0] + [w];
        } else {
          assert DropLast(g2) == DropLast(g);
          assert Intercalate(g2) == Intercalate(DropLast(g)) + [PIPE] + (Last(g) + [w]);
        }
      }
    }
  }

  /** The last group is empty exactly when there are no words or the last one is "|". */
  lemma LastGroupEmpty(words: seq<string>)
    ensures Last(Groups(words)) == [] <==> words == [] || Last(words) == PIPE
  {
  }

  /**
    The groups the parser visits, joined by "|", give the words back, except
    for one trailing "|", which leaves no group behind.
   */
  lemma PartsJoin(words: seq<string>)
    ensures words == [] || Last(words) != PIPE ==> Intercalate(Parts(words)) == words
    ensures words != [] && Last(words) == PIPE ==> Intercalate(Parts(words)) + [PIPE] == words
  {
    IntercalateGroups(words);
    LastGroupEmpty(words);
    if words != [] && Last(words) == PIPE {
      IntercalateGroups(DropLast(words));
      assert words == DropLast(words) + [PIPE];
    }
  }

  /** A line has a pipe exactly when it has more than one group. */
  lemma HasPipeIffSeveralGroups(words: seq<string>)
    ensures (PIPE in words) <==> |Groups(words)| > 1
  {
    GroupsShape(words);
  }

  /** Reading words without "|" only extends the last group. */
  lemma {:induction false} GroupsAppend(front: seq<string>, w: seq<string>)
    requires PIPE !in w
    ensures Groups(front + w) == DropLast(Groups(front)) + [Last(Groups(front)) + w]
  {
    var g := Groups(front);
    if w == [] {
      assert front + w == front;
      assert Last(g) + w == Last(g);
      assert g == DropLast(g) + [Last(g)];
    } else {
      var v := DropLast(w);
      assert w == v + [Last(w)];
      assert PIPE !in v;
      GroupsAppend(front, v);
      assert front + w == (front + v) + [Last(w)];
      GroupsSnoc(front + v, Last(w));
      var gv := DropLast(g) + [Last(g) + v];
      assert DropLast(gv) == DropLast(g) && Last(gv) == Last(g) + v;
      assert Last(g) + v + [Last(w)] == Last(g) + w;
    }
  }

  /** A line without "|" is one group. */
  lemma GroupsWithoutPipe(words: seq<string>)
    requires PIPE !in words
    ensures Groups(words) == [words]
  {
    GroupsAppend([], words);
    assert [] + words == words;
  }

  /** A "|" and then words without "|" add one group holding those words. */
  lemma GroupsPipeThen(x: seq<string>, last: seq<string>)
    requires PIPE !in last
    ensures Groups((x + [PIPE]) + last) == Groups(x) + [last]
  {
    GroupsSnoc(x, PIPE);
    var withPipe := Groups(x) + [[]];
    GroupsAppend(x + [PIPE], last);
    assert DropLast(withPipe) == Groups(x) && Last(withPipe) == [];
    assert [] + last == last;
  }

  /**
    The converse of `IntercalateGroups`: groups without "|" joined by "|" are
    cut back into the same groups.
   */
  lemma {:induction false} GroupsIntercalate(gs: seq<seq<string>>)
    requires |gs| >= 1
    requires forall i :: 0 <= i < |gs| ==> PIPE !in gs[i]
    ensures Groups(Intercalate(gs)) == gs
  {
    if |gs| == 1 {
      GroupsWithoutPipe(gs[0]);
    } else {
      var front, last := DropLast(gs), Last(gs);
      assert forall i :: 0 <= i < |front| ==> front[i] == gs[i];
      GroupsIntercalate(front);
      var x := Intercalate(front);
      assert PIPE !in last by {
        assert last == gs[|gs| - 1];
      }
      GroupsPipeThen(x, last);
      assert Intercalate(gs) == (x + [PIPE]) + last;
      assert gs == front + [last];
    }
  }

  /** A "|" first, or two "|" in a row: the shapes that leave an empty group inside the line. */
  predicate LeadingOrDoubledPipe(words: seq<string>)
  {
    (|words| > 0 && words[0] == PIPE)
    || exists i :: 0 <= i < |words| - 1 && words[i] == PIPE && words[i + 1] == PIPE
  }

  /** Extending a line by a word other than "|" neither creates nor removes such a shape. */
  lemma LeadingOrDoubledSnoc(front: seq<string>, w: string)
    ensures LeadingOrDoubledPipe(front + [w]) <==>
      (if w == PIPE then front == [] || Last(front) == PIPE || LeadingOrDoubledPipe(front)
       else LeadingOrDoubledPipe(front))
  {
    var words := front + [w];
    if exists i :: 0 <= i < |words| - 1 && words[i] == PIPE && words[i + 1] == PIPE {
      var i :| 0 <= i < |words| - 1 && words[i] == PIPE && words[i + 1] == PIPE;
      if i < |front| - 1 {
        assert front[i] == PIPE && front[i + 1] == PIPE;
      }
    }
    if exists i :: 0 <= i < |front| - 1 && front[i] == PIPE && front[i + 1] == PIPE {
      var i :| 0 <= i < |front| - 1 && front[i] == PIPE && front[i + 1] == PIPE;
      assert words[i] == PIPE && words[i + 1] == PIPE;
    }
    if w == PIPE && front != [] && Last(front) == PIPE {
      assert words[|front| - 1] == PIPE && words[|front|] == PIPE;
    }
  }

  /** Some group before the last is empty exactly when the line has a leading or doubled "|". */
  lemma {:induction false} InnerEmptyGroup(words: seq<string>)
    ensures [] in DropLast(Groups(words)) <==> LeadingOrDoubledPipe(words)
  {
    if words != [] {
      var front, w := DropLast(words), Last(words);
      var g := Groups(front);
      InnerEmptyGroup(front);
      LastGroupEmpty(front);
      LeadingOrDoubledSnoc(front, w);
      assert words == front + [w];
      if w == PIPE {
        assert DropLast(Groups(words)) == g;
        assert g == DropLast(g) + [Last(g)];
      } else {
        assert DropLast(Groups(words)) == DropLast(g);
      }
    }
  }

  /** The parser visits an empty group exactly when the line has a leading or doubled "|". */
  lemma EmptyPartIff(words: seq<string>)
    ensures [] in Parts(words) <==> LeadingOrDoubledPipe(words)
  {
    InnerEmptyGroup(words);
    var gs := Groups(words);
    assert gs == DropLast(gs) + [Last(gs)];
  }

  // ---------------------------------------------------------------------------
  // Scanning one group

  /** The argument scan of the words after a command (the `while let` over the queue). */
  function ScanArgs(rest: seq<string>): GroupScan
  {
    if rest == [] then GroupScan([], None)
    else if IsRedirectMode(rest[0]) then
      GroupScan([], if |rest| > 1 then Some(Redirect(rest[0], rest[1])) else None)
    else
      var tail := ScanArgs(rest[1..]);
      GroupScan([rest[0]] + tail.args, tail.redirect)
  }

  /**
    What the scan finds: the arguments are the longest prefix free of
    redirection operators; an operator followed by a word is a redirection to
    that word; an operator with nothing after it gives none, and scanning
    stops at the operator either way.
   */
  lemma {:induction false} ScanArgsMeaning(rest: seq<string>)
    ensures var s := ScanArgs(rest);
      && |s.args| <= |rest| && s.args == rest[..|s.args|]
      && (forall i :: 0 <= i < |s.args| ==> !IsRedirectMode(s.args[i]))
      && (|s.args| < |rest| ==> IsRedirectMode(rest[|s.args|]))
      && s.redirect == (if |s.args| + 1 < |rest| then Some(Redirect(rest[|s.args|], rest[|s.args| + 1])) else None)
  {
    if rest != [] && !IsRedirectMode(rest[0]) {
      ScanArgsMeaning(rest[1..]);
      var tail := ScanArgs(rest[1..]);
      assert ScanArgs(rest).args == [rest[0]] + tail.args;
      assert rest == [rest[0]] + rest[1..];
    }
  }

  /** The scan of a whole group: its first word is the command and is not scanned. */
  function ScanGroup(g: seq<string>): GroupScan
  {
    if g == [] then GroupScan([], None) else ScanArgs(g[1..])
  }

  // ---------------------------------------------------------------------------
  // Over all groups

  /** The commands: the first word of every non-empty group, in order. */
  function Commands(ps: seq<seq<string>>): (cmds: seq<string>)
    ensures |cmds| <= |ps|
  {
    if ps == [] then []
    else
      var front := Commands(DropLast(ps));
      if Last(ps) == [] then front else front + [Last(ps)[0]]
  }

  /** One argument list per group, empty groups included (`args.push(part_args)`). */
  function ArgLists(ps: seq<seq<string>>): (lists: seq<seq<string>>)
    ensures |lists| == |ps|
  {
    if ps == [] then []
    else ArgLists(DropLast(ps)) + [ScanGroup(Last(ps)).args]
  }

  /** The redirection of the last group that has one, if any group has one. */
  function LastRedirect(ps: seq<seq<string>>): Option<Redirect>
  {
    if ps == [] then None
    else
      var here := ScanGroup(Last(ps)).redirect;
      if here.Some? then here else LastRedirect(DropLast(ps))
  }

  function FilenameOf(r: Option<Redirect>): Option<string>
  {
    if r.Some? then Some(r.value.target) else None
  }

  function ModeOf(r: Option<Redirect>): string
  {
    if r.Some? then r.value.mode else ""
  }

  /** The reference result of `parse_arguments` on the split words. */
  function Parse(words: seq<string>): Parsed
  {
    var ps := Parts(words);
    var r := LastRedirect(ps);
    Parsed(Commands(ps), ArgLists(ps), FilenameOf(r), ModeOf(r), PIPE in words)
  }

  /** The group command `k` comes from: the last group, or the one it comes from among the others. */
  function SourceGroup(ps: seq<seq<string>>, k: nat): (i: nat)
    requires k < |Commands(ps)|
    ensures i < |ps| && ps[i] != []
  {
    var front := DropLast(ps);
    if k < |Commands(front)| then
      var i := SourceGroup(front, k);
      assert ps[i] == front[i];
      i
    else |ps| - 1
  }

  /**
    Command `k` is the first word of its group, and exactly `k` commands come
    from the groups before that one.
   */
  lemma {:induction false} CommandsAreHeads(ps: seq<seq<string>>, k: nat)
    requires k < |Commands(ps)|
    ensures var i := SourceGroup(ps, k);
      |Commands(ps[..i])| == k && Commands(ps)[k] == ps[i][0]
  {
    var front := DropLast(ps);
    var cmds := Commands(ps);
    assert cmds == if Last(ps) == [] then Commands(front) else Commands(front) + [Last(ps)[0]];
    if k < |Commands(front)| {
      CommandsAreHeads(front, k);
      var i := SourceGroup(front, k);
      assert cmds[k] == Commands(front)[k];
      assert ps[i] == front[i] && ps[..i] == front[..i];
    } else {
      assert ps[|ps| - 1] == Last(ps) && ps[..|ps| - 1] == front;
    }
  }

  /**
    Conversely, every non-empty group gives a command, at the position given
    by the number of commands before it: the commands keep the groups' order.
   */
  lemma {:induction false} CommandsInOrder(ps: seq<seq<string>>)
    ensures forall i :: 0 <= i < |ps| && ps[i] != [] ==>
      |Commands(ps[..i])| < |Commands(ps)| && Commands(ps)[|Commands(ps[..i])|] == ps[i][0]
  {
    if ps != [] {
      var front := DropLast(ps);
      CommandsInOrder(front);
      var cmds := Commands(ps);
      assert cmds == if Last(ps) == [] then Commands(front) else Commands(front) + [Last(ps)[0]];
      forall i | 0 <= i < |ps| && ps[i] != []
        ensures |Commands(ps[..i])| < |cmds| && cmds[|Commands(ps[..i])|] == ps[i][0]
      {
        if i < |front| {
          assert ps[..i] == front[..i] && ps[i] == front[i];
          assert cmds[|Commands(front[..i])|] == Commands(front)[|Commands(front[..i])|];
        } else {
          assert ps[..i] == front && ps[i] == Last(ps);
        }
      }
    }
  }

  /**
    Every non-empty group is the source of the command at the position given
    by the number of commands before it, so no group is skipped or used twice.
   */
  lemma {:induction false} SourceGroupInverse(ps: seq<seq<string>>, i: nat)
    requires i < |ps| && ps[i] != []
    ensures |Commands(ps[..i])| < |Commands(ps)| && SourceGroup(ps, |Commands(ps[..i])|) == i
  {
    var front := DropLast(ps);
    assert Commands(ps) == if Last(ps) == [] then Commands(front) else Commands(front) + [Last(ps)[0]];
    if i < |front| {
      assert ps[..i] == front[..i] && ps[i] == front[i];
      SourceGroupInverse(front, i);
    } else {
      assert ps[..i] == front && ps[i] == Last(ps);
    }
  }

  /**
    After an empty group, a group's command sits at a smaller position than
    the group itself: it is paired, by position, with the argument list of an
    earlier group.
   */
  lemma CommandsLagAfterEmptyGroup(ps: seq<seq<string>>, i: nat)
    requires i <= |ps| && [] in ps[..i]
    ensures |Commands(ps[..i])| < i
  {
    CommandsCount(ps[..i]);
    assert multiset(ps[..i])[[]] >= 1;
  }

  /** There is one command per non-empty group: as many as groups, less the empty ones. */
  lemma {:induction false} CommandsCount(ps: seq<seq<string>>)
    ensures |Commands(ps)| + multiset(ps)[[]] == |ps|
  {
    if ps != [] {
      CommandsCount(DropLast(ps));
      assert ps == DropLast(ps) + [Last(ps)];
    }
  }

  /** Without empty groups, command `i` is the first word of group `i`. */
  lemma {:induction false} CommandsAligned(ps: seq<seq<string>>)
    requires [] !in ps
    ensures |Commands(ps)| == |ps|
    ensures forall i :: 0 <= i < |ps| ==> Commands(ps)[i] == ps[i][0]
  {
    if ps != [] {
      var front := DropLast(ps);
      assert forall i :: 0 <= i < |front| ==> front[i] == ps[i];
      assert Last(ps) in ps;
      CommandsAligned(front);
    }
  }

  /** Argument list `i` is the scan of group `i`. */
  lemma {:induction false} ArgListsAt(ps: seq<seq<string>>)
    ensures forall i :: 0 <= i < |ps| ==> ArgLists(ps)[i] == ScanGroup(ps[i]).args
  {
    if ps != [] {
      var front := DropLast(ps);
      ArgListsAt(front);
      assert forall i :: 0 <= i < |front| ==> front[i] == ps[i];
    }
  }

  /** No argument list holds a redirection operator. */
  lemma ArgListsFreeOfOperators(ps: seq<seq<string>>)
    ensures forall i, k :: 0 <= i < |ps| && 0 <= k < |ArgLists(ps)[i]| ==> !IsRedirectMode(ArgLists(ps)[i][k])
  {
    ArgListsAt(ps);
    forall i | 0 <= i < |ps| && ps[i] != [] {
      ScanArgsMeaning(ps[i][1..]);
    }
  }

  /** The last redirection of a list of optional redirections, if any is present. */
  function LastSome(rs: seq<Option<Redirect>>): Option<Redirect>
  {
    if rs == [] then None else if Last(rs).Some? then Last(rs) else LastSome(DropLast(rs))
  }

  /** The position of the last present redirection, or -1 when there is none. */
  function LastSomeAt(rs: seq<Option<Redirect>>): (k: int)
    ensures -1 <= k < |rs|
    ensures k >= 0 ==> rs[k].Some? && rs[k] == LastSome(rs)
    ensures k < 0 ==> LastSome(rs).None?
    ensures forall j :: k < j < |rs| ==> rs[j].None?
  {
    if rs == [] then -1
    else if Last(rs).Some? then |rs| - 1
    else
      var k := LastSomeAt(DropLast(rs));
      assert forall j :: 0 <= j < |rs| - 1 ==> DropLast(rs)[j] == rs[j];
      k
  }

  /** The redirection each group completes, in group order. */
  function GroupRedirects(ps: seq<seq<string>>): (rs: seq<Option<Redirect>>)
    ensures |rs| == |ps|
  {
    if ps == [] then [] else GroupRedirects(DropLast(ps)) + [ScanGroup(Last(ps)).redirect]
  }

  lemma {:induction false} GroupRedirectsAt(ps: seq<seq<string>>)
    ensures LastRedirect(ps) == LastSome(GroupRedirects(ps))
    ensures forall i :: 0 <= i < |ps| ==> GroupRedirects(ps)[i] == ScanGroup(ps[i]).redirect
  {
    if ps != [] {
      var front := DropLast(ps);
      GroupRedirectsAt(front);
      var rs := GroupRedirects(ps);
      assert DropLast(rs) == GroupRedirects(front) && Last(rs) == ScanGroup(Last(ps)).redirect;
      assert forall i :: 0 <= i < |front| ==> front[i] == ps[i];
    }
  }

  /**
    The redirection kept is the one of the last group that completes a
    redirection, wherever that group is; there is none exactly when no group
    completes one.
   */
  lemma LastRedirectWins(ps: seq<seq<string>>)
    ensures LastRedirect(ps).None? <==> forall i :: 0 <= i < |ps| ==> ScanGroup(ps[i]).redirect.None?
    ensures LastRedirect(ps).Some? ==>
      exists i :: 0 <= i < |ps| && ScanGroup(ps[i]).redirect == LastRedirect(ps) &&
        forall j :: i < j < |ps| ==> ScanGroup(ps[j]).redirect.None?
  {
    var rs := GroupRedirects(ps);
    GroupRedirectsAt(ps);
    var k := LastSomeAt(rs);
    if k >= 0 {
      assert ScanGroup(ps[k]).redirect == LastRedirect(ps);
    }
  }

  /** A kept redirection always names one of the six operators. */
  lemma {:induction false} LastRedirectMode(ps: seq<seq<string>>)
    ensures LastRedirect(ps).Some? ==> IsRedirectMode(LastRedirect(ps).value.mode)
  {
    if ps != [] {
      LastRedirectMode(DropLast(ps));
      if Last(ps) != [] {
        ScanArgsMeaning(Last(ps)[1..]);
      }
    }
  }

  /** What visiting one more group adds to each result. */
  lemma PrefixStep(ps: seq<seq<string>>, j: nat)
    requires j < |ps|
    ensures Commands(ps[..j + 1]) == Commands(ps[..j]) + (if ps[j] == [] then [] else [ps[j][0]])
    ensures ArgLists(ps[..j + 1]) == ArgLists(ps[..j]) + [ScanGroup(ps[j]).args]
    ensures LastRedirect(ps[..j + 1]) ==
      if ScanGroup(ps[j]).redirect.Some? then ScanGroup(ps[j]).redirect else LastRedirect(ps[..j])
  {
    assert DropLast(ps[..j + 1]) == ps[..j];
  }

  /** One step of the argument scan, as the loop over the queue takes it. */
  lemma ScanStep(queue: seq<string>)
    requires queue != []
    ensures !IsRedirectMode(queue[0]) ==>
      ScanArgs(queue) == GroupScan([queue[0]] + ScanArgs(queue[1..]).args, ScanArgs(queue[1..]).redirect)
    ensures IsRedirectMode(queue[0]) ==>
      ScanArgs(queue) == GroupScan([], if |queue| > 1 then Some(Redirect(queue[0], queue[1])) else None)
  {
  }

  // ---------------------------------------------------------------------------
  // The parser as the source writes it

  /**
    The first loop of `parse_arguments`: words accumulate in the current
    group, each "|" closes it, and the last group is kept only if non-empty.
   */
  method SplitParts(words: seq<string>) returns (commandParts: seq<seq<string>>)
    ensures commandParts == Parts(words)
  {
    commandParts := [];
    var currentPart: seq<string> := [];
    for i := 0 to |words|
      invariant commandParts + [currentPart] == Groups(words[..i])
    {
      assert words[..i + 1] == words[..i] + [words[i]];
      GroupsSnoc(words[..i], words[i]);
      var part := words[i];
      if part == PIPE {
        commandParts := commandParts + [currentPart];
        currentPart := [];
      } else {
        currentPart := currentPart + [part];
      }
    }
    assert words[..|words|] == words;
    var gs := commandParts + [currentPart];
    assert DropLast(gs) == commandParts && Last(gs) == currentPart;
    if currentPart != [] {
      commandParts := commandParts + [currentPart];
    }
  }

  /**
    `parse_arguments` after the word splitter: the groups are built by
    `SplitParts`, then the second loop pops the command and scans the
    arguments of each group, overwriting the filename and mode whenever a
    redirection is complete.
   */
  method ParseArguments(words: seq<string>)
    returns (cmd: seq<string>, args: seq<seq<string>>, filename: Option<string>,
             redirectMode: string, hasPipe: bool)
    ensures Parsed(cmd, args, filename, redirectMode, hasPipe) == Parse(words)
  {
    cmd, args, filename, redirectMode := [], [], None, "";
    hasPipe := PIPE in words;
    var commandParts := SplitParts(words);

    for j := 0 to |commandParts|
      invariant cmd == Commands(commandParts[..j])
      invariant args == ArgLists(commandParts[..j])
      invariant filename == FilenameOf(LastRedirect(commandParts[..j]))
      invariant redirectMode == ModeOf(LastRedirect(commandParts[..j]))
    {
      PrefixStep(commandParts, j);
      var part := commandParts[j];
      var partIter := part;
      if partIter != [] {
        cmd := cmd + [partIter[0]];
        partIter := partIter[1..];
      }
      ghost var scan := ScanGroup(part);
      ghost var filenameBefore, modeBefore := filename, redirectMode;

      var partArgs: seq<string> := [];
      while partIter != []
        invariant scan == GroupScan(partArgs + ScanArgs(partIter).args, ScanArgs(partIter).redirect)
        invariant filename == filenameBefore && redirectMode == modeBefore
      {
        ScanStep(partIter);
        var arg := partIter[0];
        partIter := partIter[1..];
        if IsRedirectMode(arg) {
          if partIter != [] {
            filename := Some(partIter[0]);
            redirectMode := arg;
          }
          break;
        } else {
          assert partArgs + ([arg] + ScanArgs(partIter).args) == (partArgs + [arg]) + ScanArgs(partIter).args;
          partArgs := partArgs + [arg];
        }
      }
      assert partArgs == scan.args;
      assert scan.redirect.Some? ==> filename == Some(scan.redirect.value.target) && redirectMode == scan.redirect.value.mode;
      assert scan.redirect.None? ==> filename == filenameBefore && redirectMode == modeBefore;
      args := args + [partArgs];
    }
    assert commandParts[..|commandParts|] == commandParts;
  }

  // ---------------------------------------------------------------------------
  // Properties of the parse

  /**
    The counts `parse_command` relies on: one argument list per group, one
    command per non-empty group, so never more commands than argument lists,
    and as many exactly when the line has no leading or doubled "|".
   */
  lemma ParseCounts(words: seq<string>)
    ensures var p := Parse(words);
      && |p.args| == |Parts(words)|
      && |p.cmds| + multiset(Parts(words))[[]] == |p.args|
      && |p.cmds| <= |p.args|
      && (|p.cmds| == |p.args| <==> !LeadingOrDoubledPipe(words))
  {
    CommandsCount(Parts(words));
    EmptyPartIff(words);
  }

  /** `has_pipe` is set exactly when the line has more than one group. */
  lemma ParseHasPipe(words: seq<string>)
    ensures Parse(words).hasPipe <==> |Groups(words)| > 1
  {
    HasPipeIffSeveralGroups(words);
  }

  /**
    The filename is set exactly when the mode is, the mode is then one of the
    six operators, and both come from the same redirection: the last one
    completed in any group.
   */
  lemma ParseRedirect(words: seq<string>)
    ensures var p := Parse(words);
      && (p.filename.Some? <==> p.redirectMode != "")
      && (p.filename.Some? ==> IsRedirectMode(p.redirectMode))
      && (p.filename.Some? ==> Some(Redirect(p.redirectMode, p.filename.value)) == LastRedirect(Parts(words)))
      && (p.filename.None? <==> forall i :: 0 <= i < |Parts(words)| ==> ScanGroup(Parts(words)[i]).redirect.None?)
  {
    LastRedirectMode(Parts(words));
    LastRedirectWins(Parts(words));
  }

  /**
    A line without "|" and without operators is one command whose arguments
    are all the remaining words.
   */
  lemma ParseSimpleCommand(words: seq<string>)
    requires words != [] && PIPE !in words
    requires forall i :: 0 <= i < |words| ==> !IsRedirectMode(words[i])
    ensures Parse(words) == Parsed([words[0]], [words[1..]], None, "", false)
  {
    GroupsWithoutPipe(words);
    var ps := [words];
    assert Parts(words) == ps;
    assert DropLast(ps) == [];
    ScanArgsMeaning(words[1..]);
    var s := ScanArgs(words[1..]);
    assert s.args == words[1..];
    assert s.redirect == None;
    assert Commands(ps) == [words[0]];
    assert ArgLists(ps) == [words[1..]];
    assert LastRedirect(ps) == None;
  }

  /**
    Without a leading or doubled "|", command `i` and argument list `i` come
    from the same group: its first word, and the words after it up to the
    first operator.
   */
  lemma ParseAligned(words: seq<string>)
    requires !LeadingOrDoubledPipe(words)
    ensures [] !in Parts(words)
    ensures |Parse(words).cmds| == |Parse(words).args| == |Parts(words)|
    ensures forall i :: 0 <= i < |Parts(words)| ==>
      Parse(words).cmds[i] == Parts(words)[i][0] && Parse(words).args[i] == ScanArgs(Parts(words)[i][1..]).args
  {
    var ps := Parts(words);
    EmptyPartIff(words);
    CommandsAligned(ps);
    ArgListsAt(ps);
    assert forall i :: 0 <= i < |ps| ==> ps[i] != [];
  }

  /** No argument list of the parse holds a redirection operator. */
  lemma ParseArgsFreeOfOperators(words: seq<string>)
    ensures var p := Parse(words);
      forall i, k :: 0 <= i < |p.args| && 0 <= k < |p.args[i]| ==> !IsRedirectMode(p.args[i][k])
  {
    ArgListsFreeOfOperators(Parts(words));
  }

  /** A line without "|" is one command with the scan of the words after it. */
  lemma ParseOneGroup(words: seq<string>)
    requires words != [] && PIPE !in words
    ensures var s := ScanArgs(words[1..]);
      Parse(words) == Parsed([words[0]], [s.args], FilenameOf(s.redirect), ModeOf(s.redirect), false)
  {
    var ps := [words];
    assert Parts(words) == ps by {
      GroupsWithoutPipe(words);
    }
    assert DropLast(ps) == [];
    assert Commands(ps) == [words[0]];
    assert ArgLists(ps) == [ScanGroup(words).args];
    assert LastRedirect(ps) == ScanGroup(words).redirect;
  }

  /** The scan stops at the first operator; it redirects to the word after it, if there is one. */
  lemma {:induction false} ScanStopsAtOperator(xs: seq<string>, tail: seq<string>)
    requires forall i :: 0 <= i < |xs| ==> !IsRedirectMode(xs[i])
    requires tail != [] && IsRedirectMode(tail[0])
    ensures ScanArgs(xs + tail) == GroupScan(xs, if |tail| > 1 then Some(Redirect(tail[0], tail[1])) else None)
  {
    if xs == [] {
      assert xs + tail == tail;
    } else {
      assert (xs + tail)[0] == xs[0];
      assert (xs + tail)[1..] == xs[1..] + tail;
      ScanStopsAtOperator(xs[1..], tail);
      assert [xs[0]] + xs[1..] == xs;
    }
  }

  /**
    A command, plain arguments and then an operator: the arguments are the
    words before the operator, the word after it (if any) is the target and
    the mode is the operator; anything after the target is ignored, and an
    operator with nothing after it sets no redirection.
   */
  lemma ParseRedirected(cmd: string, xs: seq<string>, tail: seq<string>)
    requires cmd != PIPE && PIPE !in xs && PIPE !in tail
    requires forall i :: 0 <= i < |xs| ==> !IsRedirectMode(xs[i])
    requires tail != [] && IsRedirectMode(tail[0])
    ensures Parse([cmd] + xs + tail) ==
      if |tail| > 1 then Parsed([cmd], [xs], Some(tail[1]), tail[0], false)
      else Parsed([cmd], [xs], None, "", false)
  {
    var words := [cmd] + xs + tail;
    assert words == [cmd] + (xs + tail);
    assert words[1..] == xs + tail;
    assert PIPE !in words by {
      assert forall i :: 0 <= i < |words| ==> words[i] == cmd || words[i] in xs || words[i] in tail by {
        forall i | 0 <= i < |words|
          ensures words[i] == cmd || words[i] in xs || words[i] in tail
        {
          if 0 < i <= |xs| {
            assert words[i] == xs[i - 1];
          } else if i > |xs| {
            assert words[i] == tail[i - 1 - |xs|];
          }
        }
      }
    }
    ParseOneGroup(words);
    ScanStopsAtOperator(xs, tail);
  }

  /** An operator glued to a target that does not start with '>' is not an operator word. */
  lemma GluedModeIsWord(m: string, t: string)
    requires IsRedirectMode(m) && t != [] && t[0] != '>'
    ensures !IsRedirectMode(m + t) && m + t != PIPE
  {
    var w := m + t;
    assert w[|m|] == t[0] && w[..|m|] == m;
  }

  /**
    Operators are recognised only as whole words: after plain arguments, an
    operator glued to its target is one more argument and the line has no
    redirection, while the same operator and target as two words redirect.
   */
  lemma ParseGluedOperator(cmd: string, xs: seq<string>, m: string, t: string)
    requires cmd != PIPE && !IsRedirectMode(cmd)
    requires PIPE !in xs && forall i :: 0 <= i < |xs| ==> !IsRedirectMode(xs[i])
    requires IsRedirectMode(m) && t != [] && t[0] != '>'
    ensures Parse([cmd] + xs + [m + t]) == Parsed([cmd], [xs + [m + t]], None, "", false)
    ensures t != PIPE ==> Parse([cmd] + xs + [m, t]) == Parsed([cmd], [xs], Some(t), m, false)
  {
    GluedModeIsWord(m, t);
    var words := [cmd] + xs + [m + t];
    forall i | 0 <= i < |words|
      ensures words[i] != PIPE && !IsRedirectMode(words[i])
    {
      if 0 < i <= |xs| {
        assert words[i] == xs[i - 1];
      }
    }
    ParseSimpleCommand(words);
    assert words[1..] == xs + [m + t];
    if t != PIPE {
      assert m != PIPE;
      ParseRedirected(cmd, xs, [m, t]);
    }
  }

  // ---------------------------------------------------------------------------
  // Empty groups: the argument lists shift against the commands

  /**
    A leading "|" leaves an empty group that pushes an argument list but no
    command, so the only command is paired, by index, with the empty list.
   */
  lemma ParseLeadingPipe(w: seq<string>)
    requires w != [] && PIPE !in w
    ensures Parts([PIPE] + w) == [[], w]
    ensures Parse([PIPE] + w).cmds == [w[0]]
    ensures Parse([PIPE] + w).args == [[], ScanArgs(w[1..]).args]
  {
    var ps: seq<seq<string>> := [[], w];
    assert Groups([PIPE] + w) == ps by {
      GroupsSnoc([], PIPE);
      assert [] + [PIPE] == [PIPE];
      GroupsAppend([PIPE], w);
      assert [] + w == w;
    }
    assert Parts([PIPE] + w) == ps;
    assert Commands(ps) == [w[0]] by {
      assert DropLast(ps) == [[]] && DropLast(DropLast(ps)) == [];
    }
    assert ArgLists(ps) == [[], ScanArgs(w[1..]).args] by {
      assert DropLast(ps) == [[]] && DropLast(DropLast(ps)) == [];
    }
  }

  /**
    As written, for every line: once an empty group has been kept, the
    command of a later group `i` is paired, by position, with the argument
    list of the earlier group at that position.
   */
  lemma ParseMisaligned(words: seq<string>, i: nat)
    requires i < |Parts(words)| && Parts(words)[i] != [] && [] in Parts(words)[..i]
    ensures var ps := Parts(words);
      var c := |Commands(ps[..i])|;
      && c < i && c < |Parse(words).cmds|
      && Parse(words).cmds[c] == ps[i][0]
      && Parse(words).args[c] == ScanGroup(ps[c]).args
  {
    var ps := Parts(words);
    CommandsInOrder(ps);
    ArgListsAt(ps);
    CommandsLagAfterEmptyGroup(ps, i);
  }

  /** The argument lists with the evident fix applied: only a group with a command pushes one. */
  function ArgListsFixed(ps: seq<seq<string>>): (lists: seq<seq<string>>)
    ensures |lists| == |Commands(ps)|
  {
    if ps == [] then []
    else
      var front := ArgListsFixed(DropLast(ps));
      if Last(ps) == [] then front else front + [ScanGroup(Last(ps)).args]
  }

  /** With the fix, argument list `k` comes from the same group as command `k`. */
  lemma {:induction false} FixedPairsGroups(ps: seq<seq<string>>, k: nat)
    requires k < |Commands(ps)|
    ensures ArgListsFixed(ps)[k] == ScanGroup(ps[SourceGroup(ps, k)]).args
  {
    var front := DropLast(ps);
    var lists := ArgListsFixed(ps);
    assert Commands(ps) == if Last(ps) == [] then Commands(front) else Commands(front) + [Last(ps)[0]];
    assert lists == if Last(ps) == [] then ArgListsFixed(front) else ArgListsFixed(front) + [ScanGroup(Last(ps)).args];
    if k < |Commands(front)| {
      FixedPairsGroups(front, k);
      var i := SourceGroup(front, k);
      assert lists[k] == ArgListsFixed(front)[k];
      assert ps[i] == front[i];
    }
  }

  /** Where no group is empty the fix changes nothing. */
  lemma {:induction false} FixedAgrees(ps: seq<seq<string>>)
    requires [] !in ps
    ensures ArgListsFixed(ps) == ArgLists(ps)
  {
    if ps != [] {
      assert Last(ps) in ps;
      assert forall g :: g in DropLast(ps) ==> g in ps;
      FixedAgrees(DropLast(ps));
    }
  }

  /** The parse with the fix applied; everything but the argument lists is unchanged. */
  function ParseFixed(words: seq<string>): Parsed
  {
    var p := Parse(words);
    p.(args := ArgListsFixed(Parts(words)))
  }

  /** With the fix, a leading "|" no longer takes the command's arguments away. */
  lemma ParseFixedLeadingPipe(w: seq<string>)
    requires w != [] && PIPE !in w
    ensures ParseFixed([PIPE] + w).cmds == [w[0]]
    ensures ParseFixed([PIPE] + w).args == [ScanArgs(w[1..]).args]
  {
    ParseLeadingPipe(w);
    var ps: seq<seq<string>> := [[], w];
    assert DropLast(ps) == [[]] && DropLast(DropLast(ps)) == [];
    assert ArgListsFixed([[]]) == [];
    assert ArgListsFixed(ps) == [ScanArgs(w[1..]).args];
  }
}
