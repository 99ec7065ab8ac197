/**
 * Reading the collector's clipboard history (`get_clipboard_history`): the
 * collector's standard output is split into lines, and a leading notice that
 * the history database is still empty is dropped when real lines follow it.
 */
module ClipboardHistory {
  import opened Text

  const NEWLINE: char := '\n'

  /** The notice the collector prints before any history has been stored. */
  const SENTINEL: string := "opening db: please store something first"

  /** The sentinel rule: drop the first line when it is the notice and it is not the only line. */
  function DropSentinel(lines: seq<string>): seq<string>
  {
    if |lines| > 1 && lines[0] == SENTINEL then lines[1..] else lines
  }

  /** The history lines obtained from the collector output `stdout`. */
  function History(stdout: string): (lines: seq<string>)
    ensures |lines| >= 1
  {
    DropSentinel(Split(stdout, NEWLINE))
  }

  /**
   * The history as the source builds it: the characters of `stdout` are
   * scanned once, each newline closes the current line and pushes it, the
   * text after the last newline is pushed at the end, and then the first
   * line is removed when the sentinel rule applies.
   */
  method GetClipboardHistory(stdout: string) returns (cbh: seq<string>)
    ensures cbh == History(stdout)
  {
    cbh := [];
    var line := "";
    var i := 0;
    while i < |stdout|
      invariant 0 <= i <= |stdout|
      invariant cbh + [line] == Split(stdout[..i], NEWLINE)
    {
      assert stdout[..i + 1] == stdout[..i] + [stdout[i]];
      ScanStep(stdout[..i], stdout[i], cbh, line);
      if stdout[i] == NEWLINE {
        cbh := cbh + [line];
        line := "";
      } else {
        line := line + [stdout[i]];
      }
      i := i + 1;
    }
    assert stdout[..i] == stdout;
    cbh := cbh + [line];
    if |cbh| > 1 && cbh[0] == SENTINEL {
      cbh := cbh[1..];
    }
  }

  /** One scanned character either closes the current line or extends it. */
  lemma ScanStep(scanned: string, c: char, closed: seq<string>, line: string)
    requires closed + [line] == Split(scanned, NEWLINE)
    ensures c == NEWLINE ==> (closed + [line]) + [""] == Split(scanned + [c], NEWLINE)
    ensures c != NEWLINE ==> closed + [line + [c]] == Split(scanned + [c], NEWLINE)
  {
    SplitSnoc(scanned, c, NEWLINE);
    assert (closed + [line])[..|closed|] == closed;
  }

  /** Output that opens with the notice and a newline splits into the notice followed by the rest's lines. */
  lemma SplitAfterSentinel(rest: string)
    ensures Split(SENTINEL + [NEWLINE] + rest, NEWLINE) == [SENTINEL] + Split(rest, NEWLINE)
  {
    SplitAppend(SENTINEL, rest, NEWLINE);
    SplitNoSep(SENTINEL, NEWLINE);
  }

  /** The sentinel rule fires exactly when the output begins with the notice followed by a newline. */
  lemma SentinelFiresIff(stdout: string)
    ensures var lines := Split(stdout, NEWLINE);
      (|lines| > 1 && lines[0] == SENTINEL) <==> SENTINEL + [NEWLINE] <= stdout
  {
    var lines := Split(stdout, NEWLINE);
    var n := |SENTINEL| + 1;
    if SENTINEL + [NEWLINE] <= stdout {
      assert stdout == SENTINEL + [NEWLINE] + stdout[n..];
      SplitAfterSentinel(stdout[n..]);
    }
    if |lines| > 1 && lines[0] == SENTINEL {
      JoinSplit(stdout, NEWLINE);
      JoinFirst(lines, NEWLINE);
    }
  }

  /**
   * The history is the line split of the whole output, or of the output after
   * the notice's line when the output begins with the notice and a newline.
   */
  lemma {:induction false} HistoryLines(stdout: string)
    ensures History(stdout) ==
      if SENTINEL + [NEWLINE] <= stdout then Split(stdout[|SENTINEL| + 1..], NEWLINE)
      else Split(stdout, NEWLINE)
  {
    SentinelFiresIff(stdout);
    if SENTINEL + [NEWLINE] <= stdout {
      assert stdout == SENTINEL + [NEWLINE] + stdout[|SENTINEL| + 1..];
      SplitAfterSentinel(stdout[|SENTINEL| + 1..]);
    }
  }

  /** Joining the history with newlines gives back the output, less the notice's line when it was dropped. */
  lemma HistoryJoin(stdout: string)
    ensures Join(History(stdout), NEWLINE) ==
      if SENTINEL + [NEWLINE] <= stdout then stdout[|SENTINEL| + 1..] else stdout
  {
    HistoryLines(stdout);
    if SENTINEL + [NEWLINE] <= stdout {
      JoinSplit(stdout[|SENTINEL| + 1..], NEWLINE);
    } else {
      JoinSplit(stdout, NEWLINE);
    }
  }

  /** One history line per newline plus one, less the dropped notice. */
  lemma HistoryLength(stdout: string)
    ensures |History(stdout)| ==
      Count(stdout, NEWLINE) + 1 - (if SENTINEL + [NEWLINE] <= stdout then 1 else 0)
  {
    SentinelFiresIff(stdout);
    SplitLength(stdout, NEWLINE);
  }

  /** No history line contains a newline. */
  lemma HistoryLinesFree(stdout: string)
    ensures forall i :: 0 <= i < |History(stdout)| ==> NEWLINE !in History(stdout)[i]
  {
    HistoryLines(stdout);
    SplitPiecesFree(stdout, NEWLINE);
    if SENTINEL + [NEWLINE] <= stdout {
      SplitPiecesFree(stdout[|SENTINEL| + 1..], NEWLINE);
    }
  }

  /** Newline-free lines, not opening with the notice, are read back from their join unchanged. */
  lemma HistoryOfJoin(lines: seq<string>)
    requires |lines| >= 1 && lines[0] != SENTINEL
    requires forall i :: 0 <= i < |lines| ==> NEWLINE !in lines[i]
    ensures History(Join(lines, NEWLINE)) == lines
  {
    SplitJoin(lines, NEWLINE);
  }

  /** A notice that is the only line is kept. */
  lemma LoneSentinelKept()
    ensures History(SENTINEL) == [SENTINEL]
  {
    SplitNoSep(SENTINEL, NEWLINE);
  }

  /** A notice followed by a newline and nothing else leaves one empty line. */
  lemma SentinelThenNothing()
    ensures History(SENTINEL + [NEWLINE]) == [""]
  {
    HistoryLines(SENTINEL + [NEWLINE]);
    assert (SENTINEL + [NEWLINE])[|SENTINEL| + 1..] == "";
  }
}
