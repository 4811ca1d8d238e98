/**
 * The monospace table formatter of the converter (parseTableToMonospace with its
 * helpers padRight and repeatChar). A table arrives as its `tr` rows, each the
 * list of its `th`/`td` cells; the formatter trims every cell, drops rows without
 * cells, pads every cell to its column's width and joins the cells with " | ",
 * writing a line of dashes under every row that holds a `th`.
 */
module Table {
  import opened Text

  /** A `th` or `td` cell: its text() and whether it is a `th`. */
  datatype Cell = Cell(text: string, isTh: bool)

  /** A kept row: its trimmed cell texts and its header flag. */
  datatype Row = Row(cells: seq<string>, header: bool)

  /** `count` copies of `ch`; nothing for a count of zero or less. */
  function Repeated(ch: char, count: int): (r: string)
    ensures |r| == Max(count, 0)
    ensures forall k :: 0 <= k < |r| ==> r[k] == ch
    decreases count
  {
    if count <= 0 then "" else Repeated(ch, count - 1) + [ch]
  }

  method RepeatChar(ch: char, count: int) returns (r: string)
    ensures r == Repeated(ch, count)
  {
    if count <= 0 {
      return "";
    }
    r := "";
    for i := 0 to count
      invariant r == Repeated(ch, i)
    {
      r := r + [ch];
    }
  }

  /** `s` followed by spaces up to `width` chars; `s` itself when it is already that long. */
  function Padded(s: string, width: int): (r: string)
    ensures |r| == Max(|s|, width)
    ensures r[..|s|] == s
    ensures forall k :: |s| <= k < |r| ==> r[k] == ' '
  {
    if |s| >= width then s else s + Repeated(' ', width - |s|)
  }

  method PadRight(s: string, width: int) returns (r: string)
    ensures r == Padded(s, width)
  {
    if |s| >= width {
      return s;
    }
    r := s;
    while |r| < width
      invariant |s| <= |r| <= width
      invariant r == s + Repeated(' ', |r| - |s|)
      decreases width - |r|
    {
      r := r + " ";
    }
  }

  /** Trimmed texts of the cells. */
  function CellTexts(cells: seq<Cell>): (r: seq<string>)
    ensures |r| == |cells|
  {
    if cells == [] then [] else CellTexts(cells[..|cells| - 1]) + [Trim(cells[|cells| - 1].text)]
  }

  /** Each text is the trimmed text of the cell at the same position. */
  lemma {:induction false} CellTextsTrimmed(cells: seq<Cell>)
    ensures forall i :: 0 <= i < |cells| ==> CellTexts(cells)[i] == Trim(cells[i].text)
    decreases |cells|
  {
    if cells != [] {
      var front := cells[..|cells| - 1];
      CellTextsTrimmed(front);
      var last := cells[|cells| - 1];
      var r := CellTexts(cells);
      assert r == CellTexts(front) + [Trim(last.text)];
      forall i | 0 <= i < |cells|
        ensures r[i] == Trim(cells[i].text)
      {
        if i < |front| {
          assert front[i] == cells[i];
          assert r[i] == CellTexts(front)[i];
        } else {
          assert i == |cells| - 1;
          assert r[i] == Trim(last.text);
        }
      }
    }
  }

  /** Some cell of the row is a `th`. */
  function AnyTh(cells: seq<Cell>): (r: bool)
    ensures r <==> exists i :: 0 <= i < |cells| && cells[i].isTh
  {
    if cells == [] then false else AnyTh(cells[..|cells| - 1]) || cells[|cells| - 1].isTh
  }

  /** The rows the formatter keeps: those with at least one cell, in order. */
  function KeptRows(table: seq<seq<Cell>>): (r: seq<Row>)
    ensures |r| <= |table|
    ensures forall i :: 0 <= i < |r| ==> |r[i].cells| > 0
  {
    if table == [] then [] else KeptRows(table[..|table| - 1]) + KeptOf(table[|table| - 1])
  }

  /** What one `tr` adds to the kept rows: its row, unless it has no cells. */
  function KeptOf(cells: seq<Cell>): (r: seq<Row>)
    ensures |r| <= 1 && (r != [] ==> |r[0].cells| > 0)
  {
    if cells == [] then [] else [Row(CellTexts(cells), AnyTh(cells))]
  }

  /** The indices of the `tr` elements that have cells, in increasing order. */
  function KeptAt(table: seq<seq<Cell>>): seq<nat>
  {
    if table == [] then [] else KeptAt(table[..|table| - 1]) + (if |table[|table| - 1]| > 0 then [|table| - 1] else [])
  }

  /** The i-th kept row is built from the `tr` at the i-th kept index. */
  lemma {:induction false} KeptExactly(table: seq<seq<Cell>>)
    ensures |KeptAt(table)| == |KeptRows(table)|
    ensures forall i :: 0 <= i < |KeptAt(table)| ==>
              KeptAt(table)[i] < |table| && KeptRows(table)[i] == Row(CellTexts(table[KeptAt(table)[i]]), AnyTh(table[KeptAt(table)[i]]))
    decreases |table|
  {
    if table != [] {
      var n := |table| - 1;
      var f := table[..n];
      KeptExactly(f);
      var idx, r := KeptAt(table), KeptRows(table);
      var fi, fr := KeptAt(f), KeptRows(f);
      var last := KeptOf(table[n]);
      assert r == fr + last;
      forall i | 0 <= i < |idx|
        ensures idx[i] < |table| && r[i] == Row(CellTexts(table[idx[i]]), AnyTh(table[idx[i]]))
      {
        if i < |fi| {
          assert idx[i] == fi[i] && r[i] == fr[i];
          assert f[fi[i]] == table[fi[i]];
        } else {
          assert idx[i] == n && r[i] == last[0];
        }
      }
    }
  }

  /**
   * The formatter drops exactly the rows without cells and keeps the others in
   * order: the kept indices increase, and an index is kept exactly when its
   * `tr` has a cell.
   */
  lemma {:induction false} KeptInOrder(table: seq<seq<Cell>>)
    ensures forall i :: 0 <= i < |KeptAt(table)| ==> KeptAt(table)[i] < |table|
    ensures forall i, k :: 0 <= i < k < |KeptAt(table)| ==> KeptAt(table)[i] < KeptAt(table)[k]
    ensures forall j :: 0 <= j < |table| ==> (|table[j]| > 0 <==> j in KeptAt(table))
    decreases |table|
  {
    if table != [] {
      var n := |table| - 1;
      var f := table[..n];
      KeptInOrder(f);
      var idx, fi := KeptAt(table), KeptAt(f);
      assert idx == fi + (if |table[n]| > 0 then [n] else []);
      forall i, k | 0 <= i < k < |idx|
        ensures idx[i] < idx[k]
      {
        if k < |fi| {
          assert idx[i] == fi[i] && idx[k] == fi[k];
        }
      }
      forall j | 0 <= j < |table|
        ensures |table[j]| > 0 <==> j in idx
      {
        assert j in idx <==> j in fi || (j == n && |table[n]| > 0);
        if j < n {
          assert f[j] == table[j];
        }
      }
    }
  }

  /** The number of columns: the largest number of cells in any row. */
  function ColumnCount(table: seq<seq<Cell>>): (r: nat)
    ensures forall i :: 0 <= i < |table| ==> |table[i]| <= r
    ensures r == 0 || exists i :: 0 <= i < |table| && |table[i]| == r
  {
    if table == [] then 0 else Max(ColumnCount(table[..|table| - 1]), |table[|table| - 1]|)
  }

  /** The width of column `c`: the longest trimmed text in it, 0 when no row reaches it. */
  function ColumnWidth(rows: seq<Row>, c: nat): (r: nat)
    ensures forall i :: 0 <= i < |rows| && c < |rows[i].cells| ==> |rows[i].cells[c]| <= r
    ensures r == 0 || exists i :: 0 <= i < |rows| && c < |rows[i].cells| && |rows[i].cells[c]| == r
  {
    if rows == [] then 0 else Max(ColumnWidth(rows[..|rows| - 1], c), CellWidth(rows[|rows| - 1], c))
  }

  /** The length of cell `c` of a row, 0 when the row is shorter. */
  function CellWidth(row: Row, c: nat): nat
  {
    if c < |row.cells| then |row.cells[c]| else 0
  }

  function Widths(rows: seq<Row>, columns: nat): (w: seq<nat>)
    ensures |w| == columns
  {
    seq(columns, c requires 0 <= c < columns => ColumnWidth(rows, c))
  }

  /** Cell `c` of a row, "" for a cell the row does not have. */
  function CellAt(cells: seq<string>, c: nat): string
  {
    if c < |cells| then cells[c] else ""
  }

  /** The first `n` columns of a row line: padded cells, " | " after every column but the last. */
  function CellsLine(cells: seq<string>, w: seq<nat>, n: nat): string
    requires n <= |w|
  {
    if n == 0 then ""
    else CellsLine(cells, w, n - 1) + Padded(CellAt(cells, n - 1), w[n - 1]) + (if n - 1 < |w| - 1 then " | " else "")
  }

  /** The first `n` columns of a header separator: dashes to the column width, "-+-" between columns. */
  function SepLine(w: seq<nat>, n: nat): string
    requires n <= |w|
  {
    if n == 0 then ""
    else SepLine(w, n - 1) + Repeated('-', w[n - 1]) + (if n - 1 < |w| - 1 then "-+-" else "")
  }

  /** The text of one kept row: its line, then the separator line when it is a header row. */
  function RowText(row: Row, w: seq<nat>): string
  {
    CellsLine(row.cells, w, |w|) + "\n" + (if row.header then SepLine(w, |w|) + "\n" else "")
  }

  function RowsText(rows: seq<Row>, w: seq<nat>): string
  {
    if rows == [] then "" else RowsText(rows[..|rows| - 1], w) + RowText(rows[|rows| - 1], w)
  }

  /** What parseTableToMonospace returns for a table. */
  function Monospace(table: seq<seq<Cell>>): string
  {
    var kept := KeptRows(table);
    RowsText(kept, Widths(kept, ColumnCount(table)))
  }

  method ParseTableToMonospace(table: seq<seq<Cell>>) returns (out: string)
    ensures out == Monospace(table)
  {
    var rows, headerFlags, columnCount := CollectRows(table);
    KeptWithinColumns(table);
    var widths := ColumnWidths(rows, columnCount, KeptRows(table));
    out := LayOut(rows, headerFlags, widths, KeptRows(table));
  }

  /** First pass: the trimmed cells of every non-empty `tr`, its header flag, and the column count. */
  method CollectRows(table: seq<seq<Cell>>) returns (rows: seq<seq<string>>, headerFlags: seq<bool>, columnCount: nat)
    ensures columnCount == ColumnCount(table)
    ensures Listed(rows, headerFlags, KeptRows(table))
  {
    rows, headerFlags, columnCount := [], [], 0;
    ghost var kept: seq<Row> := [];
    for r := 0 to |table|
      invariant columnCount == ColumnCount(table[..r]) && kept == KeptRows(table[..r])
      invariant Listed(rows, headerFlags, kept)
    {
      var cols, isHeader := RowCells(table[r]);
      CollectStep(table, r);
      columnCount := Max(columnCount, |cols|);
      if |cols| > 0 {
        KeepRow(rows, headerFlags, kept, cols, isHeader);
        rows := rows + [cols];
        headerFlags := headerFlags + [isHeader];
      }
      kept := kept + KeptOf(table[r]);
    }
    WholePrefix(table);
  }

  /** The two lists the first pass builds stay in step with the kept rows. */
  predicate Listed(rows: seq<seq<string>>, headerFlags: seq<bool>, kept: seq<Row>)
  {
    |rows| == |headerFlags| == |kept|
    && forall i :: 0 <= i < |rows| ==> rows[i] == kept[i].cells && headerFlags[i] == kept[i].header
  }

  lemma KeepRow(rows: seq<seq<string>>, headerFlags: seq<bool>, kept: seq<Row>, cols: seq<string>, isHeader: bool)
    requires Listed(rows, headerFlags, kept)
    ensures Listed(rows + [cols], headerFlags + [isHeader], kept + [Row(cols, isHeader)])
  {
  }

  /** Taking one more `tr` into account. */
  lemma CollectStep(table: seq<seq<Cell>>, r: nat)
    requires r < |table|
    ensures ColumnCount(table[..r + 1]) == Max(ColumnCount(table[..r]), |table[r]|)
    ensures KeptRows(table[..r + 1]) == KeptRows(table[..r]) + KeptOf(table[r])
  {
    PrefixStep(table, r);
  }

  /** The cells of one `tr`: their trimmed texts, and whether any is a `th`. */
  method RowCells(cells: seq<Cell>) returns (cols: seq<string>, isHeader: bool)
    ensures cols == CellTexts(cells) && isHeader == AnyTh(cells)
  {
    cols, isHeader := [], false;
    for k := 0 to |cells|
      invariant cols == CellTexts(cells[..k])
      invariant isHeader == AnyTh(cells[..k])
    {
      PrefixStep(cells, k);
      cols := cols + [Trim(cells[k].text)];
      if cells[k].isTh {
        isHeader := true;
      }
    }
    assert cells[..|cells|] == cells;
  }

  /** Second pass: the width of every column, the longest trimmed text in it. */
  method ColumnWidths(rows: seq<seq<string>>, columnCount: nat, ghost kept: seq<Row>) returns (widths: array<int>)
    requires |rows| == |kept| && forall i :: 0 <= i < |rows| ==> rows[i] == kept[i].cells
    requires forall i :: 0 <= i < |rows| ==> |rows[i]| <= columnCount
    ensures fresh(widths) && widths.Length == columnCount
    ensures forall c :: 0 <= c < columnCount ==> widths[c] == ColumnWidth(kept, c)
  {
    widths := new int[columnCount](_ => 0);
    for r := 0 to |rows|
      invariant forall c :: 0 <= c < columnCount ==> widths[c] == ColumnWidth(kept[..r], c)
    {
      ghost var before := widths[..];
      Widen(widths, rows[r]);
      forall c | 0 <= c < columnCount
        ensures widths[c] == ColumnWidth(kept[..r + 1], c)
      {
        ColumnWidthStep(kept, r, c);
        assert before[c] == ColumnWidth(kept[..r], c);
        assert CellWidth(kept[r], c) == if c < |rows[r]| then |rows[r][c]| else 0;
      }
    }
    assert kept[..|rows|] == kept;
  }

  /** The inner loop of the second pass: every column the row reaches grows to the row's cell. */
  method Widen(widths: array<int>, row: seq<string>)
    requires |row| <= widths.Length
    modifies widths
    ensures forall c :: 0 <= c < widths.Length ==>
      widths[c] == if c < |row| then Max(old(widths[c]), |row[c]|) else old(widths[c])
  {
    for i := 0 to |row|
      invariant forall c :: 0 <= c < widths.Length ==>
        widths[c] == if c < i then Max(old(widths[c]), |row[c]|) else old(widths[c])
    {
      widths[i] := Max(widths[i], |row[i]|);
    }
  }

  /** Adding row `r` widens every column to that row's cell, if it is wider. */
  lemma ColumnWidthStep(kept: seq<Row>, r: nat, c: nat)
    requires r < |kept|
    ensures ColumnWidth(kept[..r + 1], c) == Max(ColumnWidth(kept[..r], c), CellWidth(kept[r], c))
  {
    PrefixStep(kept, r);
  }

  /** Third pass: every row line, and a separator line under every header row. */
  method LayOut(rows: seq<seq<string>>, headerFlags: seq<bool>, widths: array<int>, ghost kept: seq<Row>)
    returns (out: string)
    requires Listed(rows, headerFlags, kept)
    requires forall c :: 0 <= c < widths.Length ==> widths[c] == ColumnWidth(kept, c)
    ensures out == RowsText(kept, Widths(kept, widths.Length))
  {
    ghost var w := Widths(kept, widths.Length);
    assert forall c :: 0 <= c < |w| ==> widths[c] == w[c];
    out := "";
    for r := 0 to |rows|
      invariant out == RowsText(kept[..r], w)
    {
      var text := RowBlock(rows[r], headerFlags[r], widths, w);
      assert kept[r] == Row(rows[r], headerFlags[r]);
      RowsTextStep(kept, w, r);
      out := out + text;
    }
    WholePrefix(kept);
  }

  lemma RowsTextStep(rows: seq<Row>, w: seq<nat>, r: nat)
    requires r < |rows|
    ensures RowsText(rows[..r + 1], w) == RowsText(rows[..r], w) + RowText(rows[r], w)
  {
    PrefixStep(rows, r);
  }

  /** A row's line, followed by a separator line when the row holds a `th`. */
  method RowBlock(row: seq<string>, header: bool, widths: array<int>, ghost w: seq<nat>) returns (text: string)
    requires |w| == widths.Length && forall c :: 0 <= c < |w| ==> widths[c] == w[c]
    ensures text == RowText(Row(row, header), w)
  {
    var line := RowLine(row, widths, w);
    text := line + "\n";
    if header {
      var separator := SeparatorLine(widths, w);
      text := text + separator + "\n";
    }
  }

  /** One row line: every column's cell padded to the column width, " | " between columns. */
  method RowLine(row: seq<string>, widths: array<int>, ghost w: seq<nat>) returns (line: string)
    requires |w| == widths.Length && forall c :: 0 <= c < |w| ==> widths[c] == w[c]
    ensures line == CellsLine(row, w, |w|)
  {
    line := "";
    for c := 0 to widths.Length
      invariant line == CellsLine(row, w, c)
    {
      var cell := if c < |row| then row[c] else "";
      var padded := PadRight(cell, widths[c]);
      line := line + padded;
      if c < widths.Length - 1 {
        line := line + " | ";
      }
    }
  }

  /** The line under a header row: dashes to every column width, "-+-" between columns. */
  method SeparatorLine(widths: array<int>, ghost w: seq<nat>) returns (line: string)
    requires |w| == widths.Length && forall c :: 0 <= c < |w| ==> widths[c] == w[c]
    ensures line == SepLine(w, |w|)
  {
    line := "";
    for c := 0 to widths.Length
      invariant line == SepLine(w, c)
    {
      var dashes := RepeatChar('-', widths[c]);
      line := line + dashes;
      if c < widths.Length - 1 {
        line := line + "-+-";
      }
    }
  }

  /** No kept row has more cells than there are columns. */
  lemma {:induction false} KeptWithinColumns(table: seq<seq<Cell>>)
    ensures forall i :: 0 <= i < |KeptRows(table)| ==> |KeptRows(table)[i].cells| <= ColumnCount(table)
  {
    if table != [] {
      var prefix, last := table[..|table| - 1], table[|table| - 1];
      KeptWithinColumns(prefix);
      var before := KeptRows(prefix);
      assert KeptRows(table) == before + KeptOf(last);
      forall i | 0 <= i < |KeptRows(table)|
        ensures |KeptRows(table)[i].cells| <= ColumnCount(table)
      {
        if i < |before| {
          assert KeptRows(table)[i] == before[i];
        } else {
          assert KeptRows(table)[i] == KeptOf(last)[0] && |KeptOf(last)[0].cells| == |last|;
        }
      }
    }
  }

  /** The printed width of the first `n` columns: their widths plus 3 for every " | " joint. */
  function LineWidth(w: seq<nat>, n: nat): nat
    requires n <= |w|
  {
    if n == 0 then 0 else LineWidth(w, n - 1) + w[n - 1] + (if n - 1 < |w| - 1 then 3 else 0)
  }

  lemma {:induction false} CellsLineWidth(cells: seq<string>, w: seq<nat>, n: nat)
    requires n <= |w|
    requires forall c :: 0 <= c < |cells| && c < |w| ==> |cells[c]| <= w[c]
    ensures |CellsLine(cells, w, n)| == LineWidth(w, n)
  {
    if n > 0 {
      CellsLineWidth(cells, w, n - 1);
    }
  }

  lemma {:induction false} SepLineWidth(w: seq<nat>, n: nat)
    requires n <= |w|
    ensures |SepLine(w, n)| == LineWidth(w, n)
  {
    if n > 0 {
      SepLineWidth(w, n - 1);
    }
  }

  /**
   * Alignment: every row line of a formatted table, and every separator line, is
   * exactly as long as the others, because every cell is padded to its column's
   * widest cell.
   */
  lemma TableLinesAligned(table: seq<seq<Cell>>, i: nat)
    requires i < |KeptRows(table)|
    ensures var kept := KeptRows(table);
            var w := Widths(kept, ColumnCount(table));
            |CellsLine(kept[i].cells, w, |w|)| == LineWidth(w, |w|) == |SepLine(w, |w|)|
  {
    var kept := KeptRows(table);
    RowAligned(kept, Widths(kept, ColumnCount(table)), i);
  }

  /** With every column as wide as its widest cell, a row line is as long as the separator. */
  lemma RowAligned(kept: seq<Row>, w: seq<nat>, i: nat)
    requires i < |kept| && forall c :: 0 <= c < |w| ==> w[c] == ColumnWidth(kept, c)
    ensures |CellsLine(kept[i].cells, w, |w|)| == LineWidth(w, |w|) == |SepLine(w, |w|)|
  {
    var cells := kept[i].cells;
    forall c | 0 <= c < |cells| && c < |w|
      ensures |cells[c]| <= w[c]
    {
      assert w[c] == ColumnWidth(kept, c);
    }
    CellsLineWidth(cells, w, |w|);
    SepLineWidth(w, |w|);
  }

  /**
   * Column `c` of a row line holds the row's cell `c` (or "" when the row is
   * shorter), padded to the column's width, right after the first `c` columns.
   */
  lemma {:induction false} CellsLineHoldsCells(cells: seq<string>, w: seq<nat>, n: nat, c: nat)
    requires c < n <= |w|
    ensures CellsLine(cells, w, c) + Padded(CellAt(cells, c), w[c]) <= CellsLine(cells, w, n)
  {
    var head := CellsLine(cells, w, c) + Padded(CellAt(cells, c), w[c]);
    CellsLinePrefix(cells, w, c + 1, n);
    PrefixShrink(head, if c < |w| - 1 then " | " else "", CellsLine(cells, w, c + 1), CellsLine(cells, w, n));
  }

  lemma {:induction false} CellsLinePrefix(cells: seq<string>, w: seq<nat>, m: nat, n: nat)
    requires m <= n <= |w|
    ensures CellsLine(cells, w, m) <= CellsLine(cells, w, n)
    decreases n - m
  {
    if m < n {
      CellsLinePrefix(cells, w, m, n - 1);
      CellsLineStep(cells, w, n);
      PrefixTrans(CellsLine(cells, w, m), CellsLine(cells, w, n - 1), CellsLine(cells, w, n));
    }
  }

  /** One more column only extends the line. */
  lemma CellsLineStep(cells: seq<string>, w: seq<nat>, n: nat)
    requires 0 < n <= |w|
    ensures CellsLine(cells, w, n - 1) <= CellsLine(cells, w, n)
  {
    var b := CellsLine(cells, w, n - 1);
    PrefixExtend(b, b, Padded(CellAt(cells, n - 1), w[n - 1]), if n - 1 < |w| - 1 then " | " else "", CellsLine(cells, w, n));
  }
}
