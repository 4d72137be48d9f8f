/**
 * `format_results`: the text table the GUI shows for a query result. Every
 * column is as wide as its widest entry (header included), every cell is
 * left-justified to that width, and the table is framed by separator lines.
 * Items are taken as already converted to text by `str()`.
 */
module Format {
  import opened Common

  /** What the formatter shows for an empty result. */
  const NoData: string := "No data found for this query."

  function Max(a: nat, b: nat): nat
  {
    if a < b then b else a
  }

  /** The width item `i` of `row` asks of its column; a shorter row asks nothing. */
  function CellWidth(row: seq<string>, i: nat): nat
  {
    if i < |row| then |row[i]| else 0
  }

  /** The width of column `i` once `data` has been scanned: the longest of the header and the items. */
  function ColumnWidth(header: seq<string>, data: seq<seq<string>>, i: nat): nat
    requires i < |header|
    decreases |data|
  {
    if data == [] then |header[i]|
    else Max(ColumnWidth(header, data[..|data| - 1], i), CellWidth(data[|data| - 1], i))
  }

  function Widths(header: seq<string>, data: seq<seq<string>>): (ws: seq<nat>)
    ensures |ws| == |header|
  {
    seq(|header|, i requires 0 <= i < |header| => ColumnWidth(header, data, i))
  }

  /** No row has more items than the header has columns (otherwise `widths[i]` is out of range). */
  predicate Fits(header: seq<string>, data: seq<seq<string>>)
  {
    forall r :: 0 <= r < |data| ==> |data[r]| <= |header|
  }

  function Repeat(c: char, n: nat): (s: string)
    ensures |s| == n && forall k :: 0 <= k < n ==> s[k] == c
  {
    if n == 0 then [] else Repeat(c, n - 1) + [c]
  }

  /** `str.ljust(w)`: pads with spaces on the right up to `w`; longer text is left as it is. */
  function LJust(s: string, w: nat): (r: string)
    ensures |s| <= w ==> |r| == w
    ensures |s| >= w ==> r == s
    ensures r[..|s|] == s && forall k :: |s| <= k < |r| ==> r[k] == ' '
  {
    if |s| >= w then s else s + Repeat(' ', w - |s|)
  }

  /** `sep.join(parts)` */
  function JoinWith(sep: string, parts: seq<string>): string
    decreases |parts|
  {
    if |parts| == 0 then ""
    else if |parts| == 1 then parts[0]
    else JoinWith(sep, parts[..|parts| - 1]) + sep + parts[|parts| - 1]
  }

  /** `'+-' + '-+-'.join('-' * w for w in widths) + '-+'` */
  function Separator(ws: seq<nat>): string
  {
    "+-" + JoinWith("-+-", seq(|ws|, j requires 0 <= j < |ws| => Repeat('-', ws[j]))) + "-+"
  }

  /** The items of a row, each left-justified to its column's width. */
  function Padded(cells: seq<string>, ws: seq<nat>): (r: seq<string>)
    requires |cells| <= |ws|
    ensures |r| == |cells|
  {
    seq(|cells|, j requires 0 <= j < |cells| => LJust(cells[j], ws[j]))
  }

  /** `'| ' + ' | '.join(...) + ' |'` for the header row and each data row. */
  function RowLine(cells: seq<string>, ws: seq<nat>): string
    requires |cells| <= |ws|
  {
    "| " + JoinWith(" | ", Padded(cells, ws)) + " |"
  }

  function RowLines(rows: seq<seq<string>>, ws: seq<nat>): (r: seq<string>)
    requires forall k :: 0 <= k < |rows| ==> |rows[k]| <= |ws|
    ensures |r| == |rows|
  {
    seq(|rows|, k requires 0 <= k < |rows| => RowLine(rows[k], ws))
  }

  /** The lines of the table: separator, header, separator, the rows, separator. */
  function Lines(header: seq<string>, data: seq<seq<string>>): (r: seq<string>)
    requires Fits(header, data)
  {
    Table(header, data, Widths(header, data))
  }

  /** The lines of the table for given column widths. */
  function Table(header: seq<string>, data: seq<seq<string>>, ws: seq<nat>): seq<string>
    requires |header| <= |ws| && forall k :: 0 <= k < |data| ==> |data[k]| <= |ws|
  {
    [Separator(ws), RowLine(header, ws), Separator(ws)] + RowLines(data, ws) + [Separator(ws)]
  }

  /** Joining one more part appends the separator and the part. */
  lemma JoinWithAppend(sep: string, parts: seq<string>, x: string)
    requires parts != []
    ensures JoinWith(sep, parts + [x]) == JoinWith(sep, parts) + sep + x
  {
    assert (parts + [x])[..|parts|] == parts;
  }

  /** What `format_results(header, data)` returns, or the exception it raises. */
  function Formatted(header: seq<string>, data: seq<seq<string>>): Result<string, Error>
  {
    if data == [] then Ok(NoData)
    else if !Fits(header, data) then Err(IndexError)
    else Ok(JoinWith("\n", Lines(header, data)))
  }

  /**
   * `format_results(header, data)`: no rows give the fixed message; otherwise
   * the widths are computed, which raises when a row is longer than the
   * header, and the table is rendered.
   */
  method FormatResults(header: seq<string>, data: seq<seq<string>>) returns (r: Result<string, Error>)
    ensures r == Formatted(header, data)
  {
    if data == [] {
      return Ok(NoData);
    }
    var ws := ColumnWidths(header, data);
    if ws.None? {
      return Err(IndexError);
    }
    var output := Render(header, data, ws.value);
    assert ws.value == Widths(header, data);
    r := Ok(output);
  }

  /**
   * The `widths` list: one entry per header item, widened in a nested loop by
   * every item of every row; `None` when an item has no column to widen.
   */
  method ColumnWidths(header: seq<string>, data: seq<seq<string>>) returns (r: Option<seq<nat>>)
    ensures Fits(header, data) ==> r == Some(Widths(header, data))
    ensures !Fits(header, data) ==> r == None
  {
    var widths := new nat[|header|](i requires 0 <= i < |header| => |header[i]|);
    var n := 0;
    while n < |data|
      invariant 0 <= n <= |data|
      invariant Fits(header, data[..n])
      invariant widths[..] == Widths(header, data[..n])
    {
      var row := data[n];
      ColumnWidthNext(header, data, n);
      var i := 0;
      while i < |row|
        invariant 0 <= i <= |row| && i <= widths.Length
        invariant forall j :: 0 <= j < widths.Length ==>
                    widths[j] == if j < i then ColumnWidth(header, data[..n + 1], j) else ColumnWidth(header, data[..n], j)
      {
        if i >= widths.Length {
          assert |data[n]| > |header|;
          return None;
        }
        widths[i] := Max(widths[i], |row[i]|);
        i := i + 1;
      }
      assert widths[..] == Widths(header, data[..n + 1]);
      n := n + 1;
    }
    assert data[..n] == data;
    r := Some(widths[..]);
  }

  /** Scanning one more row widens each column to that row's item, if it has one. */
  lemma ColumnWidthNext(header: seq<string>, data: seq<seq<string>>, n: nat)
    requires n < |data|
    ensures forall j :: 0 <= j < |header| ==>
              ColumnWidth(header, data[..n + 1], j) == Max(ColumnWidth(header, data[..n], j), CellWidth(data[n], j))
  {
    assert data[..n + 1][..n] == data[..n];
  }

  /** The output string, accumulated line by line with a newline after every line but the last. */
  method Render(header: seq<string>, data: seq<seq<string>>, ws: seq<nat>) returns (output: string)
    requires |header| <= |ws| && forall k :: 0 <= k < |data| ==> |data[k]| <= |ws|
    ensures output == JoinWith("\n", Table(header, data, ws))
  {
    var sep := Separator(ws);
    var headerLine := RowLine(header, ws);
    output := sep + "\n";
    output := output + headerLine + "\n";
    output := output + sep + "\n";
    ghost var done := [sep, headerLine, sep];
    assert JoinWith("\n", [sep]) == sep;
    JoinWithAppend("\n", [sep], headerLine);
    assert [sep] + [headerLine] == [sep, headerLine];
    JoinWithAppend("\n", [sep, headerLine], sep);
    assert [sep, headerLine] + [sep] == done;
    var n := 0;
    while n < |data|
      invariant 0 <= n <= |data|
      invariant done == [sep, headerLine, sep] + RowLines(data[..n], ws)
      invariant output == JoinWith("\n", done) + "\n"
    {
      var line := RowLine(data[n], ws);
      JoinWithAppend("\n", done, line);
      output := output + line + "\n";
      done := done + [line];
      n := n + 1;
    }
    JoinWithAppend("\n", done, sep);
    output := output + sep;
    assert data[..n] == data;
  }

  // Properties of the table.

  function Sum(ws: seq<nat>): nat
  {
    if ws == [] then 0 else Sum(ws[..|ws| - 1]) + ws[|ws| - 1]
  }

  function SumLengths(parts: seq<string>): nat
  {
    if parts == [] then 0 else SumLengths(parts[..|parts| - 1]) + |parts[|parts| - 1]|
  }

  /** How often `c` occurs in `s`. */
  function Count(c: char, s: string): nat
  {
    if s == [] then 0 else Count(c, s[..|s| - 1]) + if s[|s| - 1] == c then 1 else 0
  }

  /** Where the `j`-th cell of a row line starts: after "| ", the earlier columns and their " | ". */
  function Offset(ws: seq<nat>, j: nat): nat
    requires j <= |ws|
  {
    2 + Sum(ws[..j]) + 3 * j
  }

  /**
   * The message for no rows is returned exactly when there are no rows, and
   * IndexError is raised exactly when some row has more items than the header.
   */
  lemma FormattedOutcome(header: seq<string>, data: seq<seq<string>>)
    ensures Formatted(header, data) == Ok(NoData) <==> data == []
    ensures Formatted(header, data) == Err(IndexError) <==> data != [] && exists k :: 0 <= k < |data| && |data[k]| > |header|
  {
    if data != [] && Fits(header, data) {
      var lines := Lines(header, data);
      JoinWithAt("\n", lines, 0);
      assert lines[..0] == [];
      assert JoinWith("\n", lines)[0..|lines[0]|] == lines[0];
      assert JoinWith("\n", lines)[0] == lines[0][0] == '+';
    }
  }

  /** Each column is as wide as its widest entry, header included, and no wider. */
  lemma {:induction false} ColumnWidthIsMax(header: seq<string>, data: seq<seq<string>>, i: nat)
    requires i < |header|
    ensures |header[i]| <= ColumnWidth(header, data, i)
    ensures forall k :: 0 <= k < |data| && i < |data[k]| ==> |data[k][i]| <= ColumnWidth(header, data, i)
    ensures ColumnWidth(header, data, i) == |header[i]| ||
            exists k :: 0 <= k < |data| && i < |data[k]| && ColumnWidth(header, data, i) == |data[k][i]|
    decreases |data|
  {
    if data != [] {
      var last := |data| - 1;
      var init := data[..last];
      ColumnWidthIsMax(header, init, i);
      assert forall k :: 0 <= k < last ==> init[k] == data[k];
      if ColumnWidth(header, data, i) != ColumnWidth(header, init, i) {
        assert i < |data[last]| && ColumnWidth(header, data, i) == |data[last][i]|;
      } else if ColumnWidth(header, init, i) != |header[i]| {
        var k :| 0 <= k < |init| && i < |init[k]| && ColumnWidth(header, init, i) == |init[k][i]|;
        assert 0 <= k < |data| && i < |data[k]| && ColumnWidth(header, data, i) == |data[k][i]|;
      }
    }
  }

  /** Every item fits its column: the widths bound the header and every cell. */
  lemma WidthsBound(header: seq<string>, data: seq<seq<string>>)
    requires Fits(header, data)
    ensures forall j :: 0 <= j < |header| ==> |header[j]| <= Widths(header, data)[j]
    ensures forall k, j :: 0 <= k < |data| && 0 <= j < |data[k]| ==> |data[k][j]| <= Widths(header, data)[j]
  {
    forall j | 0 <= j < |header|
      ensures |header[j]| <= Widths(header, data)[j]
      ensures forall k :: 0 <= k < |data| && j < |data[k]| ==> |data[k][j]| <= Widths(header, data)[j]
    {
      ColumnWidthIsMax(header, data, j);
    }
  }

  lemma {:induction false} JoinWithLength(sep: string, parts: seq<string>)
    requires parts != []
    ensures |JoinWith(sep, parts)| == SumLengths(parts) + |sep| * (|parts| - 1)
    decreases |parts|
  {
    if |parts| > 1 {
      JoinWithLength(sep, parts[..|parts| - 1]);
    }
  }

  lemma {:induction false} SumLengthsMatch(parts: seq<string>, ws: seq<nat>)
    requires |parts| == |ws| && forall j :: 0 <= j < |parts| ==> |parts[j]| == ws[j]
    ensures SumLengths(parts) == Sum(ws)
    decreases |parts|
  {
    if parts != [] {
      SumLengthsMatch(parts[..|parts| - 1], ws[..|ws| - 1]);
    }
  }

  /** A row whose items all fit their columns pads each item to exactly its column's width. */
  lemma PaddedLengths(cells: seq<string>, ws: seq<nat>)
    requires |cells| <= |ws| && forall j :: 0 <= j < |cells| ==> |cells[j]| <= ws[j]
    ensures SumLengths(Padded(cells, ws)) == Sum(ws[..|cells|])
  {
    SumLengthsMatch(Padded(cells, ws), ws[..|cells|]);
  }

  lemma RowLineLength(cells: seq<string>, ws: seq<nat>)
    requires |cells| == |ws| > 0 && forall j :: 0 <= j < |cells| ==> |cells[j]| <= ws[j]
    ensures |RowLine(cells, ws)| == Sum(ws) + 3 * |ws| + 1
  {
    PaddedLengths(cells, ws);
    JoinWithLength(" | ", Padded(cells, ws));
    assert ws[..|cells|] == ws;
  }

  lemma SeparatorLength(ws: seq<nat>)
    requires ws != []
    ensures |Separator(ws)| == Sum(ws) + 3 * |ws| + 1
  {
    var dashes := seq(|ws|, j requires 0 <= j < |ws| => Repeat('-', ws[j]));
    SumLengthsMatch(dashes, ws);
    JoinWithLength("-+-", dashes);
  }

  /**
   * When every row has one item per header column, all lines have the same
   * length: the widths, plus three characters per column, plus one. With
   * no columns at all every line is four characters long.
   */
  lemma LineLengths(header: seq<string>, data: seq<seq<string>>)
    requires forall k :: 0 <= k < |data| ==> |data[k]| == |header|
    ensures Fits(header, data)
    ensures |Lines(header, data)| == |data| + 4
    ensures forall i :: 0 <= i < |Lines(header, data)| ==>
              |Lines(header, data)[i]| == if header == [] then 4 else Sum(Widths(header, data)) + 3 * |header| + 1
  {
    var ws := Widths(header, data);
    var lines := Lines(header, data);
    var rows := RowLines(data, ws);
    assert forall i :: 3 <= i < |lines| - 1 ==> lines[i] == rows[i - 3];
    if header == [] {
      assert |Separator(ws)| == 4;
      assert |RowLine(header, ws)| == 4;
      assert forall k :: 0 <= k < |rows| ==> rows[k] == RowLine([], ws);
    } else {
      WidthsBound(header, data);
      SeparatorLength(ws);
      RowLineLength(header, ws);
      RowLinesLength(data, ws);
    }
  }

  /** Full rows whose items fit their columns all give lines of the same length. */
  lemma RowLinesLength(rows: seq<seq<string>>, ws: seq<nat>)
    requires ws != []
    requires forall k :: 0 <= k < |rows| ==> |rows[k]| == |ws|
    requires forall k, j :: 0 <= k < |rows| && 0 <= j < |rows[k]| ==> |rows[k][j]| <= ws[j]
    ensures forall k :: 0 <= k < |rows| ==> |RowLines(rows, ws)[k]| == Sum(ws) + 3 * |ws| + 1
  {
    forall k | 0 <= k < |rows|
      ensures |RowLines(rows, ws)[k]| == Sum(ws) + 3 * |ws| + 1
    {
      RowLineLength(rows[k], ws);
    }
  }

  lemma {:induction false} CountAppend(c: char, a: string, b: string)
    ensures Count(c, a + b) == Count(c, a) + Count(c, b)
    decreases |b|
  {
    if b != [] {
      var init := b[..|b| - 1];
      assert (a + b)[..|a + b| - 1] == a + init;
      assert (a + b)[|a + b| - 1] == b[|b| - 1];
      CountAppend(c, a, init);
      assert Count(c, a + b) == Count(c, a + init) + if b[|b| - 1] == c then 1 else 0;
    } else {
      assert a + b == a;
    }
  }

  lemma {:induction false} CountAbsent(c: char, s: string)
    requires c !in s
    ensures Count(c, s) == 0
    decreases |s|
  {
    if s != [] {
      CountAbsent(c, s[..|s| - 1]);
    }
  }

  lemma {:induction false} JoinWithAbsent(c: char, sep: string, parts: seq<string>)
    requires c !in sep && forall k :: 0 <= k < |parts| ==> c !in parts[k]
    ensures c !in JoinWith(sep, parts)
    decreases |parts|
  {
    if |parts| > 1 {
      JoinWithAbsent(c, sep, parts[..|parts| - 1]);
    }
  }

  /** Joining with newlines lines that hold none gives one newline fewer than lines. */
  lemma {:induction false} JoinedNewlines(lines: seq<string>)
    requires lines != [] && forall k :: 0 <= k < |lines| ==> '\n' !in lines[k]
    ensures Count('\n', JoinWith("\n", lines)) == |lines| - 1
    decreases |lines|
  {
    var last := lines[|lines| - 1];
    CountAbsent('\n', last);
    if |lines| > 1 {
      var init := lines[..|lines| - 1];
      JoinedNewlines(init);
      CountAppend('\n', JoinWith("\n", init) + "\n", last);
      CountAppend('\n', JoinWith("\n", init), "\n");
    }
  }

  lemma RowLineNoNewline(cells: seq<string>, ws: seq<nat>)
    requires |cells| <= |ws| && forall j :: 0 <= j < |cells| ==> '\n' !in cells[j]
    ensures '\n' !in RowLine(cells, ws)
  {
    var padded := Padded(cells, ws);
    forall j | 0 <= j < |padded|
      ensures '\n' !in padded[j]
    {
      var s := cells[j];
      assert padded[j] == s || padded[j] == s + Repeat(' ', ws[j] - |s|);
    }
    JoinWithAbsent('\n', " | ", padded);
  }

  /**
   * When no header item or cell holds a newline, the formatted table holds
   * exactly one newline per row plus three: it reads as `|data| + 4` lines.
   */
  lemma OutputLineCount(header: seq<string>, data: seq<seq<string>>)
    requires data != [] && Fits(header, data)
    requires forall j :: 0 <= j < |header| ==> '\n' !in header[j]
    requires forall k, j :: 0 <= k < |data| && 0 <= j < |data[k]| ==> '\n' !in data[k][j]
    ensures Formatted(header, data).Ok?
    ensures Count('\n', Formatted(header, data).value) == |data| + 3
  {
    var ws := Widths(header, data);
    var lines := Lines(header, data);
    var dashes := seq(|ws|, j requires 0 <= j < |ws| => Repeat('-', ws[j]));
    JoinWithAbsent('\n', "-+-", dashes);
    RowLineNoNewline(header, ws);
    forall k | 0 <= k < |lines|
      ensures '\n' !in lines[k]
    {
      if 3 <= k < |lines| - 1 {
        assert lines[k] == RowLine(data[k - 3], ws);
        RowLineNoNewline(data[k - 3], ws);
      }
    }
    JoinedNewlines(lines);
  }

  /** `p` occurs in `s` starting at `start`. */
  predicate Placed(s: string, start: nat, p: string)
  {
    start + |p| <= |s| && s[start..start + |p|] == p
  }

  lemma PlacedExtend(a: string, b: string, start: nat, p: string)
    requires Placed(a, start, p)
    ensures Placed(a + b, start, p)
  {
    assert (a + b)[start..start + |p|] == a[start..start + |p|];
  }

  /** Part `j` of a joined string starts after the earlier parts and their separators. */
  lemma {:induction false} JoinWithAt(sep: string, parts: seq<string>, j: nat)
    requires j < |parts|
    ensures Placed(JoinWith(sep, parts), SumLengths(parts[..j]) + |sep| * j, parts[j])
    decreases |parts|
  {
    var n := |parts|;
    var init := parts[..n - 1];
    if n == 1 {
      assert parts[..j] == [];
    } else if j == n - 1 {
      JoinWithAtLast(sep, parts);
    } else {
      JoinWithAt(sep, init, j);
      assert init[..j] == parts[..j] && init[j] == parts[j];
      PlacedExtend(JoinWith(sep, init), sep + parts[n - 1], SumLengths(parts[..j]) + |sep| * j, parts[j]);
      assert JoinWith(sep, init) + (sep + parts[n - 1]) == JoinWith(sep, parts);
    }
  }

  lemma MulStep(a: nat, n: nat)
    requires n >= 1
    ensures a * n == a * (n - 1) + a
  {
  }

  /** The last of several joined parts follows all the others and their separators. */
  lemma JoinWithAtLast(sep: string, parts: seq<string>)
    requires |parts| > 1
    ensures Placed(JoinWith(sep, parts), SumLengths(parts[..|parts| - 1]) + |sep| * (|parts| - 1), parts[|parts| - 1])
  {
    var init := parts[..|parts| - 1];
    var last := parts[|parts| - 1];
    JoinWithLength(sep, init);
    var front := JoinWith(sep, init) + sep;
    MulStep(|sep|, |init|);
    assert |front| == SumLengths(init) + |sep| * (|parts| - 1);
    assert JoinWith(sep, parts) == front + last;
    assert (front + last)[|front|..|front| + |last|] == last;
  }

  /** In a row line, item `j` sits at its column's offset, left-justified to its column's width. */
  lemma CellAt(cells: seq<string>, ws: seq<nat>, j: nat)
    requires |cells| <= |ws| && forall i :: 0 <= i < |cells| ==> |cells[i]| <= ws[i]
    requires j < |cells|
    ensures Placed(RowLine(cells, ws), Offset(ws, j), LJust(cells[j], ws[j]))
  {
    var padded := Padded(cells, ws);
    JoinWithAt(" | ", padded, j);
    PaddedPrefix(cells, ws, j);
    PlacedInside("| ", JoinWith(" | ", padded), " |", Sum(ws[..j]) + 3 * j, padded[j]);
  }

  /** The padded items before column `j` take up exactly the widths of those columns. */
  lemma PaddedPrefix(cells: seq<string>, ws: seq<nat>, j: nat)
    requires |cells| <= |ws| && forall i :: 0 <= i < |cells| ==> |cells[i]| <= ws[i]
    requires j <= |cells|
    ensures SumLengths(Padded(cells, ws)[..j]) == Sum(ws[..j])
  {
    PaddedLengths(cells[..j], ws);
    assert Padded(cells[..j], ws) == Padded(cells, ws)[..j];
    assert ws[..|cells[..j]|] == ws[..j];
  }

  lemma PlacedInside(a: string, b: string, c: string, start: nat, p: string)
    requires Placed(b, start, p)
    ensures Placed(a + b + c, |a| + start, p)
  {
    assert (a + b + c)[|a| + start..|a| + start + |p|] == b[start..start + |p|];
  }

  /**
   * Columns line up: in the header line and in every row line, item `j`
   * starts at the same offset and is padded with spaces to the same width.
   */
  lemma ColumnsAligned(header: seq<string>, data: seq<seq<string>>)
    requires Fits(header, data)
    ensures forall j :: 0 <= j < |header| ==>
              Placed(Lines(header, data)[1], Offset(Widths(header, data), j), LJust(header[j], Widths(header, data)[j]))
    ensures forall k, j :: 0 <= k < |data| && 0 <= j < |data[k]| ==>
              Placed(Lines(header, data)[k + 3], Offset(Widths(header, data), j), LJust(data[k][j], Widths(header, data)[j]))
  {
    var ws := Widths(header, data);
    var lines := Lines(header, data);
    WidthsBound(header, data);
    forall j | 0 <= j < |header|
      ensures Placed(lines[1], Offset(ws, j), LJust(header[j], ws[j]))
    {
      CellAt(header, ws, j);
    }
    forall k, j | 0 <= k < |data| && 0 <= j < |data[k]|
      ensures Placed(lines[k + 3], Offset(ws, j), LJust(data[k][j], ws[j]))
    {
      assert lines[k + 3] == RowLine(data[k], ws);
      CellAt(data[k], ws, j);
    }
  }
}
