/**
 The table formatter: the first table of a document, redrawn as a plain-text
 grid under the document's title, followed by the total of the amounts in the
 last column and one import hint per row.
 */
module Formatter {
  import opened Text
  import opened Optional
  import opened Decimal
  import opened Scan
  import opened Docx
  import opened Seqs

  /** What the extractor collects: the title, the header cells, the body rows
      (every cell stripped) and the two formatting flags. */
  datatype TableData = TableData(
    title: string,
    headers: seq<string>,
    rows: seq<seq<string>>,
    hasBorders: bool,
    hasHeaderFormatting: bool)

  /** The stripped text of the first paragraph that has any, or empty. */
  function Title(paragraphs: seq<string>): string {
    if paragraphs == [] then []
    else if Strip(paragraphs[0]) != [] then Strip(paragraphs[0])
    else Title(paragraphs[1..])
  }

  /** The title is empty exactly when every paragraph is blank. */
  lemma {:induction false} TitleEmpty(paragraphs: seq<string>)
    ensures Title(paragraphs) == [] <==> forall k :: 0 <= k < |paragraphs| ==> Strip(paragraphs[k]) == []
  {
    if paragraphs != [] {
      TitleEmpty(paragraphs[1..]);
      assert forall k :: 1 <= k < |paragraphs| ==> paragraphs[k] == paragraphs[1..][k - 1];
    }
  }

  /** The title is the stripped text of the first paragraph that is not blank. */
  lemma {:induction false} TitleFirst(paragraphs: seq<string>, k: nat)
    requires k < |paragraphs| && Strip(paragraphs[k]) != []
    requires forall j :: 0 <= j < k ==> Strip(paragraphs[j]) == []
    ensures Title(paragraphs) == Strip(paragraphs[k])
    decreases k
  {
    if k > 0 {
      assert Strip(paragraphs[0]) == [];
      assert forall j :: 0 <= j < k - 1 ==> paragraphs[1..][j] == paragraphs[j + 1];
      TitleFirst(paragraphs[1..], k - 1);
    }
  }

  /** Every cell of a row, stripped. */
  function StripCells(cells: seq<string>): seq<string> {
    seq(|cells|, i requires 0 <= i < |cells| => Strip(cells[i]))
  }

  /** Every cell of every row, stripped. */
  function StripRows(rows: seq<seq<string>>): seq<seq<string>> {
    seq(|rows|, j requires 0 <= j < |rows| => StripCells(rows[j]))
  }

  /** The border flag the style gives: whether its name contains
      `"Table Grid"` or `"Grid"`, false without a style, and `None` for a
      style without a name, on which the test raises. */
  function BorderFlag(style: Option<Style>): Option<bool> {
    match style
    case None => Some(false)
    case Some(st) =>
      match st.name
      case None => None
      case Some(name) => Some(Contains(name, "Table Grid") || Contains(name, "Grid"))
  }

  /** The border test fails only on a nameless style, and it holds exactly
      when the style's name contains `"Grid"`: the `"Table Grid"` test adds
      nothing. */
  lemma BorderFlagGrid(style: Option<Style>)
    ensures BorderFlag(style).None? <==> style.Some? && style.value.name.None?
    ensures BorderFlag(style) == Some(true) <==>
      style.Some? && style.value.name.Some? && Contains(style.value.name.value, "Grid")
  {
    if style.Some? && style.value.name.Some? {
      var name := style.value.name.value;
      if Contains(name, "Table Grid") {
        var k := ContainsWitness(name, "Table Grid");
        assert name[k + 6..k + 10] == name[k..k + 10][6..10];
        ContainsAt(name, "Grid", k + 6);
      }
    }
  }

  /** The table data of a document: the title, and from the first table (if
      any) the stripped header row, the stripped body rows and the flags;
      `None` where the extractor's `except` returns `None`. */
  function ExtractTableFormat(doc: Document): (r: Option<TableData>)
    ensures r.None? <==> doc.tables != [] && BorderFlag(doc.tables[0].style).None?
  {
    var title := Title(doc.paragraphs);
    if doc.tables == [] then
      Some(TableData(title, [], [], false, false))
    else
      var t := doc.tables[0];
      match BorderFlag(t.style)
      case None => None
      case Some(borders) =>
        var headers := if t.rows == [] then [] else StripCells(t.rows[0]);
        Some(TableData(title, headers, StripRows(BodyRows(t)), borders, t.rows != []))
  }

  /** What the extracted data holds: the first table's header row and body
      rows cell by cell, stripped; header formatting exactly when the table
      has a row; borders exactly when the style's name contains `"Grid"`; and
      with no table, no headers, no rows and no flags. */
  lemma ExtractTableFormatSpec(doc: Document)
    requires ExtractTableFormat(doc).Some?
    ensures ExtractTableFormat(doc).value.title == Title(doc.paragraphs)
    ensures doc.tables == [] ==> ExtractTableFormat(doc).value == TableData(Title(doc.paragraphs), [], [], false, false)
    ensures doc.tables != [] ==>
      var t := doc.tables[0];
      var d := ExtractTableFormat(doc).value;
      && (d.hasHeaderFormatting <==> |t.rows| > 0)
      && (d.hasBorders <==> t.style.Some? && t.style.value.name.Some? && Contains(t.style.value.name.value, "Grid"))
      && |d.headers| == (if t.rows == [] then 0 else |t.rows[0]|)
      && (forall i :: 0 <= i < |d.headers| ==> d.headers[i] == Strip(t.rows[0][i]))
      && |d.rows| + 1 == (if t.rows == [] then 1 else |t.rows|)
      && (forall j :: 0 <= j < |d.rows| ==> |d.rows[j]| == |t.rows[j + 1]|)
      && (forall j, i :: 0 <= j < |d.rows| && 0 <= i < |d.rows[j]| ==> d.rows[j][i] == Strip(t.rows[j + 1][i]))
  {
    if doc.tables != [] {
      BorderFlagGrid(doc.tables[0].style);
    }
  }

  /** The longest cell in column `i` of `rows`, starting from `m`; rows too
      short to have column `i` are passed over. */
  function ColumnMax(rows: seq<seq<string>>, i: nat, m: nat): (r: nat)
    ensures r >= m
  {
    if rows == [] then m
    else ColumnMax(rows[1..], i, if i < |rows[0]| && |rows[0][i]| > m then |rows[0][i]| else m)
  }

  /** No cell of column `i` is longer than `ColumnMax`. */
  lemma {:induction false} ColumnMaxBound(rows: seq<seq<string>>, i: nat, m: nat)
    ensures forall j :: 0 <= j < |rows| && i < |rows[j]| ==> |rows[j][i]| <= ColumnMax(rows, i, m)
  {
    if rows != [] {
      var m' := if i < |rows[0]| && |rows[0][i]| > m then |rows[0][i]| else m;
      ColumnMaxBound(rows[1..], i, m');
      assert forall j :: 1 <= j < |rows| ==> rows[j] == rows[1..][j - 1];
    }
  }

  /** `ColumnMax` is the starting value or the length of some cell of column `i`. */
  lemma {:induction false} ColumnMaxAttained(rows: seq<seq<string>>, i: nat, m: nat)
    ensures ColumnMax(rows, i, m) == m
      || exists j :: 0 <= j < |rows| && i < |rows[j]| && ColumnMax(rows, i, m) == |rows[j][i]|
  {
    if rows != [] {
      var m' := if i < |rows[0]| && |rows[0][i]| > m then |rows[0][i]| else m;
      ColumnMaxAttained(rows[1..], i, m');
      if ColumnMax(rows, i, m) != m' {
        var j :| 0 <= j < |rows[1..]| && i < |rows[1..][j]| && ColumnMax(rows, i, m) == |rows[1..][j][i]|;
        assert rows[1..][j] == rows[j + 1];
      }
    }
  }

  /** The width of every column: its longest entry, header included, plus two. */
  function Widths(headers: seq<string>, rows: seq<seq<string>>): (w: seq<nat>)
    ensures |w| == |headers|
  {
    seq(|headers|, i requires 0 <= i < |headers| => ColumnMax(rows, i, |headers[i]|) + 2)
  }

  /** Every header and every body cell fits its column with two to spare. */
  lemma WidthsFit(headers: seq<string>, rows: seq<seq<string>>)
    ensures forall i :: 0 <= i < |headers| ==> |headers[i]| + 2 <= Widths(headers, rows)[i]
    ensures forall j, i :: 0 <= j < |rows| && 0 <= i < |headers| && i < |rows[j]| ==>
      |rows[j][i]| + 2 <= Widths(headers, rows)[i]
  {
    forall i | 0 <= i < |headers|
      ensures forall j :: 0 <= j < |rows| && i < |rows[j]| ==> |rows[j][i]| + 2 <= Widths(headers, rows)[i]
    {
      ColumnMaxBound(rows, i, |headers[i]|);
    }
  }

  /** No column is wider than it needs to be: its width is two more than the
      header or than some body cell of the column. */
  lemma WidthsTight(headers: seq<string>, rows: seq<seq<string>>, i: nat)
    requires i < |headers|
    ensures Widths(headers, rows)[i] == |headers[i]| + 2
      || exists j :: 0 <= j < |rows| && i < |rows[j]| && Widths(headers, rows)[i] == |rows[j][i]| + 2
  {
    ColumnMaxAttained(rows, i, |headers[i]|);
  }

  /** One run of dashes per column, as wide as the column. */
  function Dashes(widths: seq<nat>): seq<string> {
    seq(|widths|, i requires 0 <= i < |widths| => Repeat('-', widths[i]))
  }

  /** A border line: `+`, the dash runs joined by `+`, and `+`. */
  function Rule(widths: seq<nat>): string {
    "+" + Join("+", Dashes(widths)) + "+"
  }

  /** One cell of a row: a space, the text padded to the width less two, a
      space and a bar. */
  function CellText(cell: string, width: nat): string {
    " " + LJust(cell, width - 2) + " |"
  }

  /** The cells of a row, each in its column; cells beyond the last column
      are dropped. */
  function CellsText(cells: seq<string>, widths: seq<nat>): string {
    if cells == [] || widths == [] then []
    else CellText(cells[0], widths[0]) + CellsText(cells[1..], widths[1..])
  }

  /** A row line: a bar, then its cells. */
  function RowText(cells: seq<string>, widths: seq<nat>): string {
    "|" + CellsText(cells, widths)
  }

  function Sum(ws: seq<nat>): nat {
    if ws == [] then 0 else ws[0] + Sum(ws[1..])
  }

  function Min(a: nat, b: nat): nat {
    if a < b then a else b
  }

  lemma {:induction false} DashesLength(widths: seq<nat>)
    ensures TotalLength(Dashes(widths)) == Sum(widths)
  {
    if widths != [] {
      assert Dashes(widths)[1..] == Dashes(widths[1..]);
      DashesLength(widths[1..]);
    }
  }

  /** A border line is one character per column and per dash, plus one. */
  lemma RuleLength(widths: seq<nat>)
    requires widths != []
    ensures |Rule(widths)| == Sum(widths) + |widths| + 1
  {
    JoinLength("+", Dashes(widths));
    DashesLength(widths);
  }

  /** A cell that fits its column takes the column's width and its bar. */
  lemma {:induction false} CellsTextLength(cells: seq<string>, widths: seq<nat>)
    requires forall i :: 0 <= i < |cells| && i < |widths| ==> |cells[i]| + 2 <= widths[i]
    ensures |CellsText(cells, widths)| == Sum(widths[..Min(|cells|, |widths|)]) + Min(|cells|, |widths|)
  {
    if cells != [] && widths != [] {
      var k := Min(|cells|, |widths|);
      assert forall i :: 0 <= i < |cells| - 1 && i < |widths| - 1 ==> cells[1..][i] == cells[i + 1];
      CellsTextLength(cells[1..], widths[1..]);
      assert widths[..k][1..] == widths[1..][..k - 1];
    }
  }

  lemma {:induction false} SumPrefix(ws: seq<nat>, k: nat)
    requires k <= |ws|
    ensures Sum(ws[..k]) <= Sum(ws)
  {
    if k > 0 {
      assert ws[..k][1..] == ws[1..][..k - 1];
      SumPrefix(ws[1..], k - 1);
    } else {
      assert ws[..k] == [];
    }
  }

  /** The grid is a rectangle: the border lines, the header line and every
      body row with a cell for each column are equally long; a row with
      fewer cells ends early, and extra cells are dropped. */
  lemma GridRectangular(headers: seq<string>, rows: seq<seq<string>>)
    requires headers != []
    ensures var w := Widths(headers, rows);
      && |RowText(headers, w)| == |Rule(w)|
      && (forall j :: 0 <= j < |rows| && |rows[j]| >= |headers| ==> |RowText(rows[j], w)| == |Rule(w)|)
      && (forall j :: 0 <= j < |rows| && |rows[j]| < |headers| ==> |RowText(rows[j], w)| < |Rule(w)|)
  {
    var w := Widths(headers, rows);
    WidthsFit(headers, rows);
    RuleLength(w);
    assert w[..|w|] == w;
    CellsTextLength(headers, w);
    forall j | 0 <= j < |rows|
      ensures |rows[j]| >= |headers| ==> |RowText(rows[j], w)| == |Rule(w)|
      ensures |rows[j]| < |headers| ==> |RowText(rows[j], w)| < |Rule(w)|
    {
      CellsTextLength(rows[j], w);
      SumPrefix(w, Min(|rows[j]|, |w|));
    }
  }

  /** A line per body row, in order. */
  function BodyLines(rows: seq<seq<string>>, widths: seq<nat>): seq<string> {
    seq(|rows|, j requires 0 <= j < |rows| => RowText(rows[j], widths))
  }

  /** The grid: the top border and the bottom border when the table has
      borders, the header line, the separator under it when the table has
      borders or header formatting, and a line per body row. */
  function Grid(data: TableData): seq<string> {
    var w := Widths(data.headers, data.rows);
    var border := if data.hasBorders then [Rule(w)] else [];
    var separator := if data.hasBorders || data.hasHeaderFormatting then [Rule(w)] else [];
    border + [RowText(data.headers, w)] + separator + BodyLines(data.rows, w) + border
  }

  /** Where everything sits in the grid: the header line first or under the
      top border, the separator under it, then the body rows in order; with
      borders the grid starts and ends with a border line, without them it
      starts with the header line. */
  lemma GridLayout(data: TableData)
    ensures var g := Grid(data);
      var w := Widths(data.headers, data.rows);
      var top := if data.hasBorders then 1 else 0;
      var sep := if data.hasBorders || data.hasHeaderFormatting then 1 else 0;
      && |g| == top + 1 + sep + |data.rows| + top
      && g[top] == RowText(data.headers, w)
      && (sep == 1 ==> g[top + 1] == Rule(w))
      && (forall j :: 0 <= j < |data.rows| ==> g[top + 1 + sep + j] == RowText(data.rows[j], w))
      && (data.hasBorders ==> g[0] == Rule(w) && g[|g| - 1] == Rule(w))
      && (!data.hasBorders ==> g[0][0] == '|')
  {
    var w := Widths(data.headers, data.rows);
    var border := if data.hasBorders then [Rule(w)] else [];
    var separator := if data.hasBorders || data.hasHeaderFormatting then [Rule(w)] else [];
    var head := border + [RowText(data.headers, w)] + separator;
    var body := BodyLines(data.rows, w);
    assert Grid(data) == head + body + border;
    assert forall j :: 0 <= j < |body| ==> (head + body + border)[|head| + j] == body[j];
  }

  /** The amount in a cell: the leftmost match of `-?\d+[.,]?\d*`, its
      separator read as a point, as `float` reads it; `None` when nothing
      matches. `float` never raises here. */
  function ReadAmount(cell: string): Option<real> {
    match SearchLooseNumber(cell, 0)
    case None => None
    case Some(m) =>
      SearchLooseNumberSpec(cell, 0);
      LooseNumberEndMatches(cell, m.0);
      LooseNumberReads(cell[m.0..m.1]);
      Some(ReadFloat(ReplaceChar(cell[m.0..m.1], ',', '.')).value)
  }

  /** A cell yields no amount exactly when no piece of it matches the pattern. */
  lemma ReadAmountNone(cell: string)
    ensures ReadAmount(cell).None? <==> forall i, j :: 0 <= i < j <= |cell| ==> !LooseNumber(cell[i..j])
  {
    SearchLooseNumberSpec(cell, 0);
    if SearchLooseNumber(cell, 0).None? {
      forall i, j | 0 <= i < j <= |cell|
        ensures !LooseNumber(cell[i..j])
      {
        LooseNumberEndNone(cell, i);
      }
    } else {
      LooseNumberEndMatches(cell, SearchLooseNumber(cell, 0).value.0);
    }
  }

  /** The amount of a cell is the leftmost, and there the longest, match of
      the pattern, read as a number. */
  lemma ReadAmountMatch(cell: string, a: nat, e: nat)
    requires a < e <= |cell| && LooseNumber(cell[a..e])
    requires forall i, j :: 0 <= i < a && i < j <= |cell| ==> !LooseNumber(cell[i..j])
    requires forall f :: e < f <= |cell| ==> !LooseNumber(cell[a..f])
    ensures ReadFloat(ReplaceChar(cell[a..e], ',', '.')).Some?
    ensures ReadAmount(cell) == ReadFloat(ReplaceChar(cell[a..e], ',', '.'))
  {
    SearchFinds(cell, a, e);
    LooseNumberReads(cell[a..e]);
  }

  /** What a row adds to the total: the amount in its last cell, if any. */
  function RowAmount(row: seq<string>): real {
    if row == [] then 0.0
    else match ReadAmount(row[|row| - 1])
      case None => 0.0
      case Some(v) => v
  }

  /** The total of the amounts in the last cells, row by row. */
  function TableTotal(rows: seq<seq<string>>): real {
    if rows == [] then 0.0 else TableTotal(rows[..|rows| - 1]) + RowAmount(rows[|rows| - 1])
  }

  /** The summing loop: every row with a cell adds the amount of its last
      cell, if it has one. */
  method SumLastCells(rows: seq<seq<string>>) returns (total: real)
    ensures total == TableTotal(rows)
  {
    total := 0.0;
    var k := 0;
    while k < |rows|
      invariant k <= |rows|
      invariant total == TableTotal(rows[..k])
    {
      if |rows[k]| > 0 {
        var amount := ReadAmount(rows[k][|rows[k]| - 1]);
        if amount.Some? {
          total := total + amount.value;
        }
      }
      assert rows[..k + 1][..k] == rows[..k];
      k := k + 1;
    }
    assert rows[..k] == rows;
  }

  /** The hint for a row: its first cell and the amount in its last cell, for
      a row of at least two cells whose last cell has an amount. */
  function Hint(row: seq<string>): Option<(string, real)> {
    if |row| < 2 then None
    else
      match ReadAmount(row[|row| - 1])
      case None => None
      case Some(v) => Some((row[0], v))
  }

  function HintLine(h: (string, real)): string {
    "# - Popis: " + h.0 + ", Suma: " + Fixed2(h.1) + " €"
  }

  function HintSum(hints: seq<(string, real)>): real {
    if hints == [] then 0.0 else HintSum(hints[..|hints| - 1]) + hints[|hints| - 1].1
  }

  /** What the one-cell rows add to the total, which gets no hint. */
  function LoneTotal(rows: seq<seq<string>>): real {
    if rows == [] then 0.0
    else LoneTotal(rows[..|rows| - 1]) + (if |rows[|rows| - 1]| == 1 then RowAmount(rows[|rows| - 1]) else 0.0)
  }

  lemma {:induction false} HintSumAppend(a: seq<(string, real)>, b: seq<(string, real)>)
    requires |b| <= 1
    ensures HintSum(a + b) == HintSum(a) + HintSum(b)
  {
    if b != [] {
      assert (a + b)[..|a + b| - 1] == a;
      assert [] + b == b;
    } else {
      assert a + b == a;
    }
  }

  /** The hints account for the whole total except the one-cell rows: the
      hinted amounts and the amounts of the one-cell rows add up to the total. */
  lemma {:induction false} HintsMakeTotal(rows: seq<seq<string>>)
    ensures HintSum(FilterMap(Hint, rows)) + LoneTotal(rows) == TableTotal(rows)
  {
    if rows != [] {
      var n := |rows| - 1;
      HintsMakeTotal(rows[..n]);
      assert rows == rows[..n] + [rows[n]];
      FilterMapAppend(Hint, rows[..n], [rows[n]]);
      assert FilterMap(Hint, [rows[n]]) == (if Hint(rows[n]).Some? then [Hint(rows[n]).value] else []);
      HintSumAppend(FilterMap(Hint, rows[..n]), FilterMap(Hint, [rows[n]]));
    }
  }

  /** The heading the formatter writes for a file named `source` at the time
      `created` (as `dd.mm.yyyy hh:mm:ss`). */
  function Heading(source: string, created: string): (r: seq<string>)
    ensures |r| == 4
  {
    ["# Tabuľka vytvorená z dokumentu: " + source, "# Vytvorené: " + created, "#", ""]
  }

  /** The total under the grid, written to cents. */
  function TotalLines(rows: seq<seq<string>>): (r: seq<string>)
    ensures |r| == 2
  {
    ["", "Celková suma: " + Fixed2(TableTotal(rows)) + " €"]
  }

  /** A line per hint, in row order. */
  function HintLines(rows: seq<seq<string>>): seq<string> {
    var hints := FilterMap(Hint, rows);
    seq(|hints|, k requires 0 <= k < |hints| => HintLine(hints[k]))
  }

  /** The import notes: a fixed introduction and a line per hint. */
  function Notes(rows: seq<seq<string>>): (r: seq<string>)
    ensures |r| == 3 + |HintLines(rows)| && r[3..] == HintLines(rows)
  {
    ["", "# Informácie pre import do aplikácie Blocky:",
     "# Pre každý riadok tabuľky (okrem hlavičky) vytvorte položku v aplikácii:"]
      + HintLines(rows)
  }

  /** The title and an empty line, when there is a title. */
  function TitleLines(title: string): (r: seq<string>)
    ensures |r| == if title != [] then 2 else 0
  {
    if title != [] then [title, ""] else []
  }

  /** The lines the formatter writes for `data`. */
  function FormattedTable(data: TableData, source: string, created: string): seq<string> {
    Heading(source, created)
      + TitleLines(data.title)
      + Grid(data)
      + TotalLines(data.rows)
      + Notes(data.rows)
  }

  /** Where the start of the grid sits in the output: after the heading,
      and the title when there is one. */
  function GridStart(data: TableData): nat {
    4 + (if data.title != [] then 2 else 0)
  }

  /** The output, cut at its parts. */
  lemma FormattedTableParts(data: TableData, source: string, created: string)
    ensures var out := FormattedTable(data, source, created);
      var at := GridStart(data) + |Grid(data)|;
      && |out| == at + 5 + |HintLines(data.rows)|
      && out[GridStart(data)..at] == Grid(data)
      && out[at..at + 2] == TotalLines(data.rows)
      && out[at + 2..] == Notes(data.rows)
  {
    var pre := Heading(source, created) + TitleLines(data.title);
    var g := Grid(data);
    var t := TotalLines(data.rows);
    var n := Notes(data.rows);
    assert |pre| == GridStart(data);
    ConcatParts4(pre, g, t, n);
  }

  /** The layout of the output: the grid right after the heading and title,
      then the total of the last column written to cents, then the fixed
      import notes, and last one hint line for each row that has a
      description and an amount. */
  lemma FormattedTableLayout(data: TableData, source: string, created: string)
    ensures var out := FormattedTable(data, source, created);
      var at := GridStart(data) + |Grid(data)|;
      && |out| == at + 5 + CountDefined(Hint, data.rows)
      && out[GridStart(data)..at] == Grid(data)
      && out[at + 1] == "Celková suma: " + Fixed2(TableTotal(data.rows)) + " €"
      && out[at + 5..] == HintLines(data.rows)
  {
    FilterMapCount(Hint, data.rows);
    FormattedTableParts(data, source, created);
    var out := FormattedTable(data, source, created);
    var at := GridStart(data) + |Grid(data)|;
    assert out[at + 1] == out[at..at + 2][1];
    assert out[at + 5..] == out[at + 2..][3..];
  }
}
