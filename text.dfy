/**
  Joining and splitting strings on a one-character separator, as Rust's
  `[String]::join` and `str::split` do. The shell joins `echo`'s arguments with
  a space and splits the search path on ':'.
 */
module Text {

  /** The total length of the strings of `xs`. */
  function TotalLength(xs: seq<string>): nat
  {
    if xs == [] then 0 else |xs[0]| + TotalLength(xs[1..])
  }

  /** The strings of `xs`, in order, with one `sep` between neighbours. */
  function Join(xs: seq<string>, sep: char): (s: string)
    ensures |s| == TotalLength(xs) + (if xs == [] then 0 else |xs| - 1)
    ensures xs != [] ==> s[..|xs[0]|] == xs[0]
  {
    if |xs| == 0 then ""
    else if |xs| == 1 then xs[0]
    else xs[0] + [sep] + Join(xs[1..], sep)
  }

  /**
    The pieces of `s` between occurrences of `sep`, as `str::split`: the empty
    string gives one empty piece, and two neighbouring separators give an
    empty piece between them.
   */
  function Split(s: string, sep: char): (parts: seq<string>)
    ensures |parts| >= 1
    ensures forall i :: 0 <= i < |parts| ==> sep !in parts[i]
  {
    if s == "" then [""]
    else
      var rest := Split(s[1..], sep);
      assert s == [s[0]] + s[1..];
      if s[0] == sep then [""] + rest
      else [[s[0]] + rest[0]] + rest[1..]
  }

  /** Splitting loses nothing: joining the pieces gives the string back. */
  lemma {:induction false} JoinSplit(s: string, sep: char)
    ensures Join(Split(s, sep), sep) == s
  {
    if s != "" {
      var rest := Split(s[1..], sep);
      JoinSplit(s[1..], sep);
      assert Join(rest, sep) == s[1..];
      var parts := Split(s, sep);
      if s[0] == sep {
        assert parts == [""] + rest;
        assert parts[1..] == rest;
        assert Join(parts, sep) == "" + [sep] + Join(rest, sep);
      } else {
        assert parts == [[s[0]] + rest[0]] + rest[1..];
        if |rest| == 1 {
          assert Join(parts, sep) == [s[0]] + rest[0];
        } else {
          assert parts[1..] == rest[1..];
          assert Join(rest, sep) == rest[0] + [sep] + Join(rest[1..], sep);
          assert Join(parts, sep) == [s[0]] + rest[0] + [sep] + Join(rest[1..], sep);
        }
      }
      assert s == [s[0]] + s[1..];
    }
  }

  /** Splitting a separator-free prefix: it becomes the start of the first piece. */
  lemma {:induction false} SplitFreePrefix(a: string, t: string, sep: char)
    requires sep !in a
    ensures Split(a + t, sep) == [a + Split(t, sep)[0]] + Split(t, sep)[1..]
  {
    var parts := Split(t, sep);
    if a != "" {
      assert a == [a[0]] + a[1..];
      assert a[0] != sep && sep !in a[1..];
      SplitFreePrefix(a[1..], t, sep);
      var at := a + t;
      assert at[0] == a[0] && at[0] != sep;
      assert at[1..] == a[1..] + t;
      var rest := Split(at[1..], sep);
      assert rest == [a[1..] + parts[0]] + parts[1..];
      assert Split(at, sep) == [[at[0]] + rest[0]] + rest[1..];
      assert rest[1..] == parts[1..];
      assert [at[0]] + rest[0] == a + parts[0];
    } else {
      assert a + t == t;
      assert a + parts[0] == parts[0];
      assert parts == [parts[0]] + parts[1..];
    }
  }

  /**
    Joining is undone by splitting, as long as there is at least one string and
    none of them contains the separator.
   */
  lemma {:induction false} SplitJoin(xs: seq<string>, sep: char)
    requires |xs| >= 1
    requires forall i :: 0 <= i < |xs| ==> sep !in xs[i]
    ensures Split(Join(xs, sep), sep) == xs
  {
    if |xs| == 1 {
      SplitFreePrefix(xs[0], "", sep);
      assert xs[0] + "" == xs[0];
    } else {
      var rest := Join(xs[1..], sep);
      SplitJoin(xs[1..], sep);
      assert Split(rest, sep) == xs[1..];
      var tail := [sep] + rest;
      SplitFreePrefix(xs[0], tail, sep);
      assert Join(xs, sep) == xs[0] + tail;
      assert tail[0] == sep && tail[1..] == rest;
      assert Split(tail, sep) == [""] + xs[1..];
      assert Split(Join(xs, sep), sep) == [xs[0] + ""] + xs[1..];
      assert xs[0] + "" == xs[0];
      assert xs == [xs[0]] + xs[1..];
    }
  }

  /** Text made of whole lines: empty, or ending in a newline. */
  predicate WholeLines(s: string)
  {
    s == "" || s[|s| - 1] == '\n'
  }

  /** Whole lines followed by whole lines are whole lines. */
  lemma WholeLinesConcat(a: string, b: string)
    requires WholeLines(a) && WholeLines(b)
    ensures WholeLines(a + b)
  {
    if b == "" {
      assert a + b == a;
    }
  }
}
