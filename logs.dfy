/**
 * The pipeline's plain-text logs: one entry per line, appended to and
 * read back whole. A missing log file reads exactly like an empty one
 * everywhere the pipeline reads a log, so a log is just its lines
 * (without their line terminators).
 */
module Logs {
  import opened Strings

  class LogFile {
    var lines: seq<string>

    constructor (initial: seq<string>)
      ensures lines == initial
    {
      lines := initial;
    }

    /** `open(path, "a").write(line + "\n")`. */
    method Append(line: string)
      modifies this
      ensures lines == old(lines) + [line]
    {
      lines := lines + [line];
    }

    /** `open(path, "w").close()`: the log is emptied. */
    method Clear()
      modifies this
      ensures lines == []
    {
      lines := [];
    }
  }

  /** The set of f's values on the elements of xs. */
  function Image<T, U>(f: T -> U, xs: seq<T>): (r: set<U>)
    ensures |r| <= |xs|
    decreases |xs|
  {
    if xs == [] then {}
    else
      var r := Image(f, xs[..|xs| - 1]) + {f(xs[|xs| - 1])};
      assert |r| <= |Image(f, xs[..|xs| - 1])| + 1;
      r
  }

  lemma {:induction false} ImageMembers<T, U>(f: T -> U, xs: seq<T>, y: U)
    ensures y in Image(f, xs) <==> exists i :: 0 <= i < |xs| && f(xs[i]) == y
    decreases |xs|
  {
    if xs != [] {
      var init := xs[..|xs| - 1];
      ImageMembers(f, init, y);
      if y in Image(f, init) {
        var i :| 0 <= i < |init| && f(init[i]) == y;
        assert xs[i] == init[i];
      }
    }
  }

  /**
   * The set of the log's stripped lines, as `load_processed_files` and
   * `load_downloaded_files` build it (empty for a missing log).
   */
  function LineSet(lines: seq<string>): (r: set<string>)
    ensures |r| <= |lines|
    ensures lines == [] ==> r == {}
  {
    Image(Strip, lines)
  }

  /** x is in the set exactly when some line strips to x. */
  lemma LineSetMembers(lines: seq<string>, x: string)
    ensures x in LineSet(lines) <==> exists i :: 0 <= i < |lines| && Strip(lines[i]) == x
  {
    ImageMembers(Strip, lines, x);
  }

  /** Appending a line adds exactly its stripped form to the set. */
  lemma LineSetAppend(lines: seq<string>, line: string)
    ensures LineSet(lines + [line]) == LineSet(lines) + {Strip(line)}
  {
    assert (lines + [line])[..|lines|] == lines;
  }
}
