/**
 * The search controller of dialog.cpp: the guard and restart of a search
 * (Dialog::onFind), the incremental reading of locate's output into rows
 * (Dialog::readLocateOutput), the final status (Dialog::locateFinished) and
 * the paths handed to the file opener (Dialog::openFile, Dialog::openFolder).
 *
 * The locate process is reduced to a flag saying whether one is running and
 * the argument list it was started with; its output arrives as the chunks
 * passed to ReadLocateOutput.
 */
module Dialog {
  import opened Wrappers
  import opened Text
  import opened Paths

  const NL := '\n'

  /** The state of the line edit and the four check boxes when a search is considered. */
  datatype SearchParams = SearchParams(
    text: string,
    caseSensitive: bool,
    useRegExp: bool,
    searchOnlyHome: bool,
    showFullPath: bool)

  /** What a locate command line asks for: the pattern and the two optional switches. */
  datatype LocateQuery = LocateQuery(pattern: string, ignoreCase: bool, regExp: bool)

  /**
   * The arguments onFind starts locate with: --existing and --basename always,
   * --ignore-case when the search is not case-sensitive, --regexp when regular
   * expressions are on, and the query text last.
   */
  function LocateArgs(p: SearchParams): (args: seq<string>)
    ensures 3 <= |args| <= 5 && args[0] == "--existing" && args[1] == "--basename"
    ensures args[|args| - 1] == p.text
  {
    ["--existing", "--basename"]
    + (if p.caseSensitive then [] else ["--ignore-case"])
    + (if p.useRegExp then ["--regexp"] else [])
    + [p.text]
  }

  /**
   * The command line restricts locate to existing files and to base names, ends
   * with the query text, and carries the case switch exactly when the search
   * ignores case and the regexp switch exactly when it is a regular expression.
   */
  lemma LocateArgsShape(p: SearchParams)
    ensures var args := LocateArgs(p);
      && |args| >= 3 && args[0] == "--existing" && args[1] == "--basename"
      && args[|args| - 1] == p.text
      && ("--ignore-case" in args[..|args| - 1] <==> !p.caseSensitive)
      && ("--regexp" in args[..|args| - 1] <==> p.useRegExp)
  {
    var args := LocateArgs(p);
    assert args[..|args| - 1] == ["--existing", "--basename"]
      + (if p.caseSensitive then [] else ["--ignore-case"])
      + (if p.useRegExp then ["--regexp"] else []);
  }

  /** Reads a locate command line of the shape LocateArgs builds back into the query it asks for. */
  function DecodeArgs(args: seq<string>): Option<LocateQuery> {
    if |args| < 3 || args[0] != "--existing" || args[1] != "--basename" then None
    else
      var switches, pattern := args[2..|args| - 1], args[|args| - 1];
      if switches == [] then Some(LocateQuery(pattern, false, false))
      else if switches == ["--ignore-case"] then Some(LocateQuery(pattern, true, false))
      else if switches == ["--regexp"] then Some(LocateQuery(pattern, false, true))
      else if switches == ["--ignore-case", "--regexp"] then Some(LocateQuery(pattern, true, true))
      else None
  }

  /** The command line carries exactly the text, the case switch and the regexp switch of the search. */
  lemma ArgsRoundTrip(p: SearchParams)
    ensures DecodeArgs(LocateArgs(p)) == Some(LocateQuery(p.text, !p.caseSensitive, p.useRegExp))
  {
    var args := LocateArgs(p);
    var switches := args[2..|args| - 1];
    if p.caseSensitive && p.useRegExp {
      assert switches == ["--regexp"];
    } else if !p.caseSensitive && !p.useRegExp {
      assert switches == ["--ignore-case"];
    } else if !p.caseSensitive {
      assert switches == ["--ignore-case", "--regexp"];
    } else {
      assert switches == [];
    }
  }

  /** One list widget item: its display text and, in short mode, the full path as its tool tip. */
  datatype Row = Row(display: string, toolTip: Option<string>)

  /**
   * The item readLocateOutput adds for one path: the whole path, or its
   * basename with the path as tool tip.  Either way the label ends the path,
   * and in short mode it holds no slash.
   */
  function MakeRow(path: string, showFullPath: bool): (row: Row)
    ensures |row.display| <= |path| && row.display == path[|path| - |row.display|..]
    ensures showFullPath ==> row.display == path
    ensures !showFullPath ==> '/' !in row.display && row.toolTip == Some(path)
  {
    if showFullPath then Row(path, None) else Row(Basename(path), Some(path))
  }

  /**
   * The text openFile and openFolder read from an item: the display role when
   * full paths are shown, the tool-tip role otherwise (an unset role reads as
   * the empty string).  Whatever the mode, it is the path the item was made from.
   */
  function RolePath(row: Row, showFullPath: bool): (path: string)
    ensures forall p :: row == MakeRow(p, showFullPath) ==> path == p
  {
    if showFullPath then row.display else row.toolTip.GetOr("")
  }

  /** The items for a list of paths: one per path, in the same order. */
  function Rows(paths: seq<string>, showFullPath: bool): seq<Row> {
    seq(|paths|, i requires 0 <= i < |paths| => MakeRow(paths[i], showFullPath))
  }

  /** The complete lines that become rows: all of them, or only those under home. */
  function Survivors(lines: seq<string>, searchOnlyHome: bool, home: string): (kept: seq<string>)
    ensures |kept| <= |lines|
    ensures forall p :: p in kept <==> p in lines && (searchOnlyHome ==> UnderHome(p, home))
  {
    if searchOnlyHome then
      assert forall p :: p in HomeOnly(lines, home) <==> p in lines && UnderHome(p, home) by {
        forall p ensures p in HomeOnly(lines, home) <==> p in lines && UnderHome(p, home) {
          HomeOnlyMembers(lines, home, p);
        }
      }
      HomeOnly(lines, home)
    else lines
  }

  lemma SurvivorsAppend(a: seq<string>, b: seq<string>, searchOnlyHome: bool, home: string)
    ensures Survivors(a + b, searchOnlyHome, home) == Survivors(a, searchOnlyHome, home) + Survivors(b, searchOnlyHome, home)
  {
    if searchOnlyHome {
      HomeOnlyAppend(a, b, home);
    }
  }

  /**
   * The status readLocateOutput shows once the row count has changed (it is
   * then at least 1): "Searching (", the count, and the singular or plural
   * ending, with the count rendered in decimal between them.
   */
  function ProgressStatus(count: nat): (s: string)
    ensures |s| >= 27 && s[..11] == "Searching ("
    ensures count == 1 ==> s[11..] == "1 file found)..."
    ensures count != 1 ==> s[|s| - 16..] == " files found)..." && s[11..|s| - 16] == Decimal(count)
  {
    if count == 1 then "Searching (1 file found)..."
    else "Searching (" + Decimal(count) + " files found)..."
  }

  /** The status while locate runs: "Searching..." until the first row arrives, then the running count. */
  function RunningStatus(count: nat): string {
    if count == 0 then "Searching..." else ProgressStatus(count)
  }

  /**
   * The status locateFinished leaves: the count in decimal followed by
   * " files found." for more than one row, the singular message for one, and
   * "Nothing found." exactly when there is none.
   */
  function FinalStatus(count: nat): (s: string)
    ensures count > 1 ==> |s| > 13 && s[..|s| - 13] == Decimal(count) && s[|s| - 13..] == " files found."
    ensures count == 1 ==> s == "1 file found."
    ensures s == "Nothing found." <==> count == 0
  {
    if count > 1 then
      var s := Decimal(count) + " files found.";
      assert s[0] == Decimal(count)[0];
      s
    else if count == 1 then "1 file found."
    else "Nothing found."
  }

  /** The progress status names the count unambiguously: different counts give different messages. */
  lemma ProgressStatusInjective(a: nat, b: nat)
    requires a > 0 && b > 0 && a != b
    ensures ProgressStatus(a) != ProgressStatus(b)
  {
    if a != 1 && b != 1 {
      var s, t := ProgressStatus(a), ProgressStatus(b);
      DecimalInjective(a, b);
      assert s[11..|s| - 16] == Decimal(a);
      assert t[11..|t| - 16] == Decimal(b);
    } else {
      var n := if a == 1 then b else a;
      assert |ProgressStatus(n)| == 27 + |Decimal(n)|;
    }
  }

  /** The final status names the count unambiguously, and only an empty result reads "Nothing found.". */
  lemma FinalStatusInjective(a: nat, b: nat)
    requires a != b
    ensures FinalStatus(a) != FinalStatus(b)
  {
    if a > 1 && b > 1 {
      var s, t := FinalStatus(a), FinalStatus(b);
      DecimalInjective(a, b);
      assert s[..|s| - 13] == Decimal(a);
      assert t[..|t| - 13] == Decimal(b);
    } else if a > 1 || b > 1 {
      var n := if a > 1 then a else b;
      var s := FinalStatus(n);
      assert |s| == |Decimal(n)| + 13 && s[0] == Decimal(n)[0];
    }
  }

  lemma RowsAppend(a: seq<string>, b: seq<string>, showFullPath: bool)
    ensures Rows(a + b, showFullPath) == Rows(a, showFullPath) + Rows(b, showFullPath)
  {
    var r, ra, rb := Rows(a + b, showFullPath), Rows(a, showFullPath), Rows(b, showFullPath);
    forall i | 0 <= i < |r| ensures r[i] == (ra + rb)[i] {
      if i < |a| {
        assert (a + b)[i] == a[i];
      } else {
        assert (a + b)[i] == b[i - |a|];
      }
    }
    assert r == ra + rb;
  }

  /**
   * The parse state of the output stream: the buffer and every complete line
   * are newline-free, and the output read so far is the complete lines, each
   * with its newline, followed by the buffer.
   */
  ghost predicate Consistent(lines: seq<string>, buffer: string, received: string) {
    && Free(buffer, NL)
    && (forall i :: 0 <= i < |lines| ==> Free(lines[i], NL))
    && received == Terminated(lines, NL) + buffer
  }

  /**
   * One read keeps the parse state consistent: splitting buffer + chunk, taking
   * all but the last piece as new complete lines and the last piece as the new
   * buffer accounts for exactly the output read so far plus the chunk.
   */
  lemma ReadKeepsConsistent(lines: seq<string>, buffer: string, received: string, chunk: string)
    requires Consistent(lines, buffer, received)
    ensures var parts := Split(buffer + chunk, NL);
      Consistent(lines + parts[..|parts| - 1], parts[|parts| - 1], received + chunk)
  {
    var parts := Split(buffer + chunk, NL);
    var complete, rest := parts[..|parts| - 1], parts[|parts| - 1];
    JoinIsTerminatedPlusLast(parts, NL);
    TerminatedAppend(lines, complete, NL);
    calc {
      received + chunk;
      Terminated(lines, NL) + (buffer + chunk);
      Terminated(lines, NL) + (Terminated(complete, NL) + rest);
      Terminated(lines + complete, NL) + rest;
    }
    var all := lines + complete;
    assert forall i :: 0 <= i < |all| ==> Free(all[i], NL) by {
      forall i | 0 <= i < |all| ensures Free(all[i], NL) {
        if i >= |lines| {
          assert all[i] == parts[i - |lines|];
        }
      }
    }
  }

  class Dialog {
    /** QDir::homePath(), fixed for the life of the dialog. */
    const home: string

    /** oldFindString and the four old* check-box fields of the source: the parameters of the last search acted on. */
    var lastSearch: SearchParams

    /** Output after the last newline, waiting for the rest of its line. */
    var lastPartialLine: string
    /** The list widget's items. */
    var rows: seq<Row>
    /** The status label's text, and whether its palette is the red one. */
    var status: string
    var statusRed: bool
    /** Whether the locate handle is set, and the arguments it was started with. */
    var running: bool
    var args: seq<string>

    /** All output read since the current search started (the stale fragment when none did). */
    ghost var received: string
    /** Every complete line split off that output, before filtering. */
    ghost var lines: seq<string>

    /** The complete lines that have become rows. */
    ghost function Shown(): seq<string>
      reads this
    {
      Survivors(lines, lastSearch.searchOnlyHome, home)
    }

    /**
     * The buffer never holds a newline; the output read so far is the complete
     * lines, each with its newline, followed by the buffer; the rows are exactly
     * the surviving lines in order; and while locate runs the stored query is
     * non-empty and the status shows the running count in the normal colour.
     */
    ghost predicate Valid()
      reads this
    {
      && Consistent(lines, lastPartialLine, received)
      && rows == Rows(Shown(), lastSearch.showFullPath)
      && (running ==> lastSearch.text != "" && !statusRed && status == RunningStatus(|rows|))
    }

    /** The dialog as constructed: the initial check-box values, no rows, no process. */
    constructor (homePath: string, initialStatus: string)
      ensures Valid()
      ensures home == homePath
      ensures lastSearch == SearchParams("", false, false, true, false)
      ensures lastPartialLine == "" && rows == [] && !running
      ensures status == initialStatus && !statusRed
    {
      home := homePath;
      lastSearch := SearchParams("", false, false, true, false);
      lastPartialLine := "";
      rows := [];
      status := initialStatus;
      statusRed := false;
      running := false;
      args := [];
      received := "";
      lines := [];
    }

    /**
     * Dialog::onFind with the widgets in state ui.  Nothing happens when ui
     * equals the stored parameters.  Otherwise they are stored, any running
     * locate is stopped and the rows cleared; an empty query shows "Ready."
     * (the buffer is left as it was), any other query empties the buffer and
     * starts locate with LocateArgs(ui).
     */
    method OnFind(ui: SearchParams)
      requires Valid()
      modifies this
      ensures Valid()
      ensures old(lastSearch) == ui ==> unchanged(this)
      ensures old(lastSearch) != ui ==> lastSearch == ui && rows == [] && !statusRed
      ensures old(lastSearch) != ui && ui.text == "" ==>
        && status == "Ready." && !running
        && lastPartialLine == old(lastPartialLine) && args == old(args)
      ensures old(lastSearch) != ui && ui.text != "" ==>
        && status == "Searching..." && running
        && lastPartialLine == "" && args == LocateArgs(ui)
    {
      // the query text and all four check boxes as they were last time
      if lastSearch == ui {
        return;
      }

      lastSearch := ui;
      // terminate and wait for the previous locate
      running := false;
      rows := [];
      lines := [];
      received := lastPartialLine;

      statusRed := false;

      if ui.text == "" {
        status := "Ready.";
        return;
      }

      lastPartialLine := "";
      received := "";
      status := "Searching...";

      args := LocateArgs(ui);
      running := true;
    }

    /**
     * Dialog::readLocateOutput with chunk as the newly read output.  The buffer
     * plus chunk is split on newlines; the last piece becomes the new buffer and
     * every earlier piece is a complete line; the lines that survive the home
     * filter are appended as rows in order; the status is rewritten only when
     * the row count changed.
     */
    method ReadLocateOutput(chunk: string)
      requires Valid() && running
      modifies this`lastPartialLine, this`rows, this`status, this`received, this`lines
      ensures Valid() && running
      ensures received == old(received) + chunk
      ensures var parts := Split(old(lastPartialLine) + chunk, NL);
        && lastPartialLine == parts[|parts| - 1]
        && lines == old(lines) + parts[..|parts| - 1]
        && rows == old(rows) + Rows(Survivors(parts[..|parts| - 1], lastSearch.searchOnlyHome, home), lastSearch.showFullPath)
      ensures |rows| != old(|rows|) ==> status == ProgressStatus(|rows|)
      ensures |rows| == old(|rows|) ==> status == old(status)
    {
      var lastCount := |rows|;
      ghost var lines0 := lines;
      var complete := TakeLines(chunk);
      var list := complete;
      if lastSearch.searchOnlyHome {
        list := HomeOnly(list, home);
      }
      AddItems(list, lastSearch.showFullPath);

      var count := |rows|;
      if count != lastCount {
        status := ProgressStatus(count);
      }

      SurvivorsAppend(lines0, complete, lastSearch.searchOnlyHome, home);
      RowsAppend(Survivors(lines0, lastSearch.searchOnlyHome, home), list, lastSearch.showFullPath);
    }

    /**
     * The buffering step of readLocateOutput: the buffer plus the chunk is split
     * on newlines, the last piece is kept as the new buffer and the earlier
     * pieces are returned as the complete lines.
     */
    method TakeLines(chunk: string) returns (complete: seq<string>)
      requires Consistent(lines, lastPartialLine, received)
      modifies this`lastPartialLine, this`received, this`lines
      ensures var parts := Split(old(lastPartialLine) + chunk, NL);
        && complete == parts[..|parts| - 1]
        && lastPartialLine == parts[|parts| - 1]
      ensures lines == old(lines) + complete && received == old(received) + chunk
      ensures Consistent(lines, lastPartialLine, received)
    {
      ReadKeepsConsistent(lines, lastPartialLine, received, chunk);
      var list := Split(lastPartialLine + chunk, NL);
      lastPartialLine := list[|list| - 1];
      complete := list[..|list| - 1];
      received := received + chunk;
      lines := lines + complete;
    }

    /** The foreach loop of readLocateOutput: one item per path, appended in order. */
    method AddItems(paths: seq<string>, showFullPath: bool)
      modifies this`rows
      ensures rows == old(rows) + Rows(paths, showFullPath)
    {
      var i := 0;
      while i < |paths|
        invariant 0 <= i <= |paths|
        invariant rows == old(rows) + Rows(paths[..i], showFullPath)
      {
        RowsAppend(paths[..i], [paths[i]], showFullPath);
        assert paths[..i + 1] == paths[..i] + [paths[i]];
        rows := rows + [MakeRow(paths[i], showFullPath)];
        i := i + 1;
      }
      assert paths[..i] == paths;
    }

    /**
     * Dialog::locateFinished: the status shows the final row count, in red
     * exactly when nothing was found, and the locate handle is released.
     */
    method LocateFinished()
      requires Valid() && running
      modifies this`status, this`statusRed, this`running
      ensures Valid() && !running
      ensures status == FinalStatus(|rows|)
      ensures statusRed <==> |rows| == 0
    {
      var count := |rows|;
      if count > 1 {
        status := Decimal(count) + " files found.";
      } else if count == 1 {
        status := "1 file found.";
      } else {
        statusRed := true;
        status := "Nothing found.";
      }
      running := false;
    }

    /**
     * Dialog::openFile: when an item is selected, the path handed to the file
     * opener is the full path of the line that item was made from.
     */
    method OpenFile(selected: Option<nat>) returns (target: Option<string>)
      requires Valid()
      requires selected.Some? ==> selected.value < |rows|
      ensures selected.None? ==> target == None
      ensures selected.Some? ==> target == Some(Shown()[selected.value])
    {
      if selected.Some? {
        target := Some(RolePath(rows[selected.value], lastSearch.showFullPath));
      } else {
        target := None;
      }
    }

    /**
     * Dialog::openFolder: when an item is selected, the path handed to the file
     * opener is the folder of that item's full path; FolderOf corrects the
     * source's ParentFolder for files directly under the root.
     */
    method OpenFolder(selected: Option<nat>) returns (target: Option<string>)
      requires Valid()
      requires selected.Some? ==> selected.value < |rows|
      ensures selected.None? ==> target == None
      ensures selected.Some? ==> target == Some(FolderOf(Shown()[selected.value]))
    {
      if selected.Some? {
        target := Some(FolderOf(RolePath(rows[selected.value], lastSearch.showFullPath)));
      } else {
        target := None;
      }
    }
  }

  /**
   * What the buffer and the lines mean in any valid state: the complete lines
   * and the buffer are exactly what splitting all output read so far yields, so
   * the buffer is the text after the last newline and is never shown as a row,
   * and once the output ends with a newline the buffer is empty.
   */
  lemma StreamState(lines: seq<string>, buffer: string, received: string)
    requires forall i :: 0 <= i < |lines| ==> Free(lines[i], NL)
    requires Free(buffer, NL)
    requires received == Terminated(lines, NL) + buffer
    ensures Split(received, NL) == lines + [buffer]
    ensures buffer == AfterLast(received, NL)
    ensures |lines| == Occurrences(received, NL)
    ensures |received| > 0 && received[|received| - 1] == NL ==> buffer == ""
  {
    Decomposition(lines, buffer, received, NL);
    SplitLastIsAfterLast(received, NL);
    SplitCount(received, NL);
  }

  /**
   * One read on its own: the new buffer holds no newline, and the old buffer
   * plus the chunk is exactly the split-off lines, each followed by a newline,
   * then the new buffer.
   */
  lemma ReadReconstructs(buffer: string, chunk: string)
    ensures var parts := Split(buffer + chunk, NL);
      && Free(parts[|parts| - 1], NL)
      && buffer + chunk == Terminated(parts[..|parts| - 1], NL) + parts[|parts| - 1]
  {
    JoinIsTerminatedPlusLast(Split(buffer + chunk, NL), NL);
  }

  /**
   * The buffered fragment becomes a line, whole, on the read that brings its
   * newline: it is the first complete line of that read, glued to the text
   * before the newline.
   */
  lemma FragmentCompleted(buffer: string, head: string, tail: string)
    requires Free(buffer + head, NL)
    ensures var parts := Split(buffer + (head + [NL] + tail), NL);
      |parts| >= 2 && parts[0] == buffer + head
  {
    var t := [NL] + tail;
    assert buffer + (head + [NL] + tail) == (buffer + head) + t;
    assert t[1..] == tail;
    SplitAfterFreePrefix(buffer + head, t, NL);
    assert (buffer + head) + "" == buffer + head;
  }

  /** A chunk that completes no line adds no row: it only grows the buffer. */
  lemma NoNewlineNoRows(buffer: string, chunk: string, searchOnlyHome: bool, home: string, showFullPath: bool)
    requires Free(buffer + chunk, NL)
    ensures var parts := Split(buffer + chunk, NL);
      && parts[|parts| - 1] == buffer + chunk
      && Rows(Survivors(parts[..|parts| - 1], searchOnlyHome, home), showFullPath) == []
  {
    SplitSingle(buffer + chunk, NL);
  }
}
