/**
  The table of executables (`load_executables` in src/main.rs). The search path
  is cut at ':' and each directory is listed in order; an entry is taken when
  it has a name, is executable, and its name is not in the table yet, so the
  first executable of each name along the search path wins.

  The environment and the file system are parameters: the value of PATH is
  given as text, or nothing when it is unset (then it is read as the empty
  string, whose search path is a single empty directory name), and listing a directory is a function that returns the directory's readable
  entries (in the order `read_dir` yields them) or nothing when the directory
  cannot be read. Each entry carries its file name, if it has one that is
  valid text, its full path, whether it is a regular file, and whether its
  permissions are read-only, or nothing when its metadata cannot be read.
 */
module Executables {
  import opened Wrappers
  import Text

  const PATH_SEPARATOR: char := ':'

  datatype Entry = Entry(name: Option<string>, path: string, isFile: bool, readOnly: Option<bool>)

  /** `is_executable`: a regular file whose metadata says it is writable; unreadable metadata means no. */
  predicate IsExecutable(e: Entry)
  {
    e.isFile && e.readOnly == Some(false)
  }

  /**
    What `is_executable` decides: a directory or other non-file is never
    executable, nor is a file whose metadata cannot be read or whose
    permissions are read-only; a readable, writable regular file is.
   */
  lemma ExecutableCases(e: Entry)
    ensures !e.isFile ==> !IsExecutable(e)
    ensures e.readOnly.None? ==> !IsExecutable(e)
    ensures e.readOnly == Some(true) ==> !IsExecutable(e)
    ensures e.isFile && e.readOnly == Some(false) ==> IsExecutable(e)
  {
  }

  /** An entry that `load_executables` would take for `n` if `n` were not in the table yet. */
  predicate Provides(e: Entry, n: string)
  {
    e.name == Some(n) && IsExecutable(e)
  }

  /** The entries of the listed directories, one directory after another; unreadable ones give none. */
  function Listing(dirs: seq<string>, readDir: string -> Option<seq<Entry>>): seq<Entry>
  {
    if dirs == [] then []
    else
      var found := readDir(dirs[|dirs| - 1]);
      Listing(dirs[..|dirs| - 1], readDir) + (if found.Some? then found.value else [])
  }

  /** The directories of the search path; an unset PATH reads as the empty string. */
  function SearchPath(pathVar: Option<string>): seq<string>
  {
    Text.Split(if pathVar.Some? then pathVar.value else "", PATH_SEPARATOR)
  }

  /** The entries the search path yields, in search order. */
  function SearchEntries(pathVar: Option<string>, readDir: string -> Option<seq<Entry>>): seq<Entry>
  {
    Listing(SearchPath(pathVar), readDir)
  }

  /** The path of the first entry that provides `n`, if any. */
  function FirstExecutable(es: seq<Entry>, n: string): Option<string>
  {
    if es == [] then None
    else if Provides(es[0], n) then Some(es[0].path)
    else FirstExecutable(es[1..], n)
  }

  /**
    There is a first executable exactly when some entry provides `n`, and it
    is the path of an entry that provides `n` with no earlier entry doing so.
   */
  lemma {:induction false} FirstExecutableMeaning(es: seq<Entry>, n: string)
    ensures FirstExecutable(es, n).Some? <==> exists i :: 0 <= i < |es| && Provides(es[i], n)
    ensures FirstExecutable(es, n).Some? ==>
      exists i :: 0 <= i < |es| && Provides(es[i], n) && FirstExecutable(es, n).value == es[i].path &&
                  forall j :: 0 <= j < i ==> !Provides(es[j], n)
  {
    if es != [] && !Provides(es[0], n) {
      FirstExecutableMeaning(es[1..], n);
      var r := FirstExecutable(es[1..], n);
      if r.Some? {
        var i :| 0 <= i < |es[1..]| && Provides(es[1..][i], n) && r.value == es[1..][i].path &&
          forall j :: 0 <= j < i ==> !Provides(es[1..][j], n);
        assert Provides(es[i + 1], n) && r.value == es[i + 1].path;
        forall j | 0 <= j < i + 1
          ensures !Provides(es[j], n)
        {
          if j > 0 {
            assert es[j] == es[1..][j - 1];
          }
        }
      } else {
        forall i | 0 <= i < |es|
          ensures !Provides(es[i], n)
        {
          if i > 0 {
            assert es[i] == es[1..][i - 1];
          }
        }
      }
    }
  }

  /** A later entry only matters for a name no earlier entry provides. */
  lemma {:induction false} FirstExecutableSnoc(es: seq<Entry>, e: Entry, n: string)
    ensures FirstExecutable(es + [e], n) ==
      if FirstExecutable(es, n).Some? then FirstExecutable(es, n)
      else if Provides(e, n) then Some(e.path)
      else None
  {
    if es != [] {
      assert (es + [e])[1..] == es[1..] + [e];
      FirstExecutableSnoc(es[1..], e, n);
    }
  }

  /** Later duplicates never overwrite: once a name is provided, more entries do not change it. */
  lemma {:induction false} FirstExecutableStable(es: seq<Entry>, more: seq<Entry>, n: string)
    requires FirstExecutable(es, n).Some?
    ensures FirstExecutable(es + more, n) == FirstExecutable(es, n)
  {
    if !Provides(es[0], n) {
      assert (es + more)[1..] == es[1..] + more;
      FirstExecutableStable(es[1..], more, n);
    }
  }

  /** The map holds, for every name, the path of the first entry that provides it, and nothing else. */
  ghost predicate TableOf(m: map<string, string>, es: seq<Entry>)
  {
    forall n :: (n in m <==> FirstExecutable(es, n).Some?) && (n in m ==> m[n] == FirstExecutable(es, n).value)
  }

  /** Visiting one more entry keeps the table right: it is inserted only for a new name it provides. */
  lemma TakeEntry(m: map<string, string>, seen: seq<Entry>, e: Entry, m': map<string, string>)
    requires TableOf(m, seen)
    requires m' == if e.name.Some? && IsExecutable(e) && e.name.value !in m then m[e.name.value := e.path] else m
    ensures TableOf(m', seen + [e])
  {
    forall n {
      FirstExecutableSnoc(seen, e, n);
    }
  }

  /** The table is determined by the entries. */
  lemma TableUnique(m: map<string, string>, m': map<string, string>, es: seq<Entry>)
    requires TableOf(m, es) && TableOf(m', es)
    ensures m == m'
  {
    assert m.Keys == m'.Keys;
  }

  /**
    With PATH unset, or set to the empty string, the search path is the one
    empty directory name (`"".split(':')` yields one empty piece), and the
    table holds whatever listing that name gives.
   */
  lemma EmptyPathSearchesOneDirectory(pathVar: Option<string>, readDir: string -> Option<seq<Entry>>)
    requires pathVar.None? || pathVar == Some("")
    ensures SearchPath(pathVar) == [""]
    ensures SearchEntries(pathVar, readDir) == if readDir("").Some? then readDir("").value else []
  {
    assert Text.Split("", PATH_SEPARATOR) == [""];
  }

  /**
    Directories are searched in order: the table keeps, for a name, the path
    from the earliest directory that provides it.
   */
  lemma {:induction false} EarlierDirectoryWins(dirs: seq<string>, more: seq<string>, readDir: string -> Option<seq<Entry>>, n: string)
    requires FirstExecutable(Listing(dirs, readDir), n).Some?
    ensures FirstExecutable(Listing(dirs + more, readDir), n) == FirstExecutable(Listing(dirs, readDir), n)
  {
    if more == [] {
      assert dirs + more == dirs;
    } else {
      var front := dirs + more[..|more| - 1];
      assert dirs + more == front + [more[|more| - 1]];
      assert front[..|front|] == front;
      assert (dirs + more)[..|dirs + more| - 1] == front;
      EarlierDirectoryWins(dirs, more[..|more| - 1], readDir, n);
      var found := readDir(more[|more| - 1]);
      FirstExecutableStable(Listing(front, readDir), if found.Some? then found.value else [], n);
    }
  }

  /** The names of the entries. */
  function Names(es: seq<Entry>): set<string>
  {
    set i | 0 <= i < |es| && es[i].name.Some? :: es[i].name.value
  }

  /** The table `load_executables` builds, as a value. */
  function Table(pathVar: Option<string>, readDir: string -> Option<seq<Entry>>): (t: map<string, string>)
    ensures TableOf(t, SearchEntries(pathVar, readDir))
  {
    var es := SearchEntries(pathVar, readDir);
    var t := map n | n in Names(es) && FirstExecutable(es, n).Some? :: FirstExecutable(es, n).value;
    assert forall n :: FirstExecutable(es, n).Some? ==> n in Names(es) by {
      forall n | FirstExecutable(es, n).Some?
        ensures n in Names(es)
      {
        FirstExecutableMeaning(es, n);
        var i :| 0 <= i < |es| && Provides(es[i], n);
      }
    }
    t
  }

  /**
    On Unix, listing the empty directory name fails (opening "" reports that
    no such file exists), so with PATH unset or empty the table is empty and
    no name is found on the search path.
   */
  lemma EmptyPathFindsNothing(pathVar: Option<string>, readDir: string -> Option<seq<Entry>>)
    requires pathVar.None? || pathVar == Some("")
    requires readDir("").None?
    ensures Table(pathVar, readDir) == map[]
  {
    EmptyPathSearchesOneDirectory(pathVar, readDir);
    var es := SearchEntries(pathVar, readDir);
    var t := Table(pathVar, readDir);
    assert es == [];
    assert forall n :: FirstExecutable(es, n) == None;
    assert t.Keys == {};
  }

  /**
    `load_executables`: the outer loop walks the search path, the inner loop a
    directory's entries, and an entry is inserted only when it is executable
    and its name is still absent.
   */
  method LoadExecutables(pathVar: Option<string>, readDir: string -> Option<seq<Entry>>)
    returns (executables: map<string, string>)
    ensures TableOf(executables, SearchEntries(pathVar, readDir))
    ensures executables == Table(pathVar, readDir)
  {
    executables := map[];
    var pathText := if pathVar.Some? then pathVar.value else "";
    var dirs := Text.Split(pathText, PATH_SEPARATOR);
    assert dirs == SearchPath(pathVar);
    ghost var seen: seq<Entry> := [];
    for d := 0 to |dirs|
      invariant seen == Listing(dirs[..d], readDir)
      invariant TableOf(executables, seen)
    {
      assert dirs[..d + 1][..d] == dirs[..d];
      var listing := readDir(dirs[d]);
      if listing.Some? {
        var entries := listing.value;
        for j := 0 to |entries|
          invariant seen == Listing(dirs[..d], readDir) + entries[..j]
          invariant TableOf(executables, seen)
        {
          var entry := entries[j];
          ghost var before := executables;
          if entry.name.Some? {
            var name := entry.name.value;
            if IsExecutable(entry) && name !in executables {
              executables := executables[name := entry.path];
            }
          }
          TakeEntry(before, seen, entry, executables);
          seen := seen + [entry];
          assert entries[..j + 1] == entries[..j] + [entry];
        }
        assert entries[..|entries|] == entries;
      }
    }
    assert dirs[..|dirs|] == dirs;
    assert seen == SearchEntries(pathVar, readDir);
    TableUnique(executables, Table(pathVar, readDir), seen);
  }
}
