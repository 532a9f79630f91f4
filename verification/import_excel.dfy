/**
 The Excel import: the first sheet of a workbook is read row by row, each row
 with a description in its first cell and an amount in its second becomes a
 receipt file in the target folder, and the number of such rows is returned.
 Cells are read through the type dispatch of `getCellValueAsString` and
 `getCellValueAsDouble`.
 */
module ImportExcel {
  import opened Text
  import opened Optional
  import opened Decimal

  /** A spreadsheet cell, by its type. A formula cell is known by what its two
      accessors give: `None` where the accessor throws because the cached
      result has the other type. */
  datatype Cell =
    | Numeric(number: real)
    | Str(text: string)
    | Boolean(truth: bool)
    | Formula(numeric: Option<real>, shown: Option<string>)
    | Blank
    | Error

  /** A row: its cells by column index, a missing index being a null cell. */
  datatype Row = Row(cells: map<int, Cell>)

  /** The first sheet: its last row index and its rows by index, a missing
      index being a null row. An empty sheet has `lastRowNum == -1`. */
  datatype Sheet = Sheet(lastRowNum: int, rows: map<int, Row>)

  /** The characters Java's `String.trim` removes: every code point up to the
      space. */
  predicate IsTrimmed(c: char) {
    c <= ' '
  }

  /** `s.trim()` in Java: `s` without leading and trailing control characters
      and spaces. */
  function JavaTrim(s: string): (r: string)
    ensures |r| <= |s|
    ensures r == [] || (!IsTrimmed(r[0]) && !IsTrimmed(r[|r| - 1]))
  {
    if |s| > 0 && IsTrimmed(s[0]) then JavaTrim(s[1..])
    else if |s| > 0 && IsTrimmed(s[|s| - 1]) then JavaTrim(s[..|s| - 1])
    else s
  }

  /** `s.toDouble()`: the text is trimmed, may carry a sign `+` or `-`, and
      must then be a decimal numeral; `None` where the parser throws
      `NumberFormatException`. */
  function ParseDouble(s: string): Option<real> {
    var t := JavaTrim(s);
    if |t| > 0 && t[0] == '+' then
      if |t| > 1 && t[1] == '-' then None else ReadFloat(t[1..])
    else
      ReadFloat(t)
  }

  /** The text of a numeral, with or without a `+` sign and with any padding
      of control characters and spaces, reads as the numeral's value. */
  lemma ParseDoubleReads(n: Numeral, pad: string, plus: bool)
    requires WellFormed(n)
    requires forall i :: 0 <= i < |pad| ==> IsTrimmed(pad[i])
    requires plus ==> !n.negative
    ensures ParseDouble(pad + (if plus then "+" else "") + Spell(n) + pad) == Some(Value(n))
  {
    var sign := if plus then "+" else "";
    var t := sign + Spell(n);
    assert pad + sign + Spell(n) + pad == pad + t + pad;
    SpellEnds(n);
    assert t[|t| - 1] == Spell(n)[|Spell(n)| - 1];
    assert t[0] == if plus then '+' else Spell(n)[0];
    JavaTrimPadded(pad, t);
    SignedReads(n, plus);
  }

  /** A trimmed numeral, with or without a `+`, reads as its value. */
  lemma SignedReads(n: Numeral, plus: bool)
    requires WellFormed(n)
    requires plus ==> !n.negative
    ensures var t := (if plus then "+" else "") + Spell(n);
      (if |t| > 0 && t[0] == '+' then
         if |t| > 1 && t[1] == '-' then None else ReadFloat(t[1..])
       else
         ReadFloat(t)) == Some(Value(n))
  {
    ParseSpell(n);
    SpellEnds(n);
    var t := (if plus then "+" else "") + Spell(n);
    if plus {
      assert t[1..] == Spell(n);
      assert t[1] == Spell(n)[0];
    } else {
      assert t == Spell(n);
    }
  }

  /** The first character of a numeral is a digit, a minus or a point, and its
      last is a digit or a point: none of them is trimmed. */
  lemma SpellEnds(n: Numeral)
    requires WellFormed(n)
    ensures |Spell(n)| > 0
    ensures !IsTrimmed(Spell(n)[0]) && !IsTrimmed(Spell(n)[|Spell(n)| - 1])
    ensures Spell(n)[0] != '+' && (!n.negative ==> Spell(n)[0] != '-')
  {
    var s := Spell(n);
    var pt := if n.point then "." else "";
    assert s == (if n.negative then "-" else "") + n.whole + pt + n.fraction;
    if !n.negative {
      assert s[0] == (if |n.whole| > 0 then n.whole[0] else '.');
    }
    if |n.fraction| > 0 {
      assert s[|s| - 1] == n.fraction[|n.fraction| - 1];
    } else if n.point {
      assert s[|s| - 1] == '.';
    } else {
      assert s[|s| - 1] == n.whole[|n.whole| - 1];
    }
  }

  /** Trimming removes exactly the padding around a text whose ends are not
      trimmed. */
  lemma {:induction false} JavaTrimPadded(pad: string, t: string)
    requires forall i :: 0 <= i < |pad| ==> IsTrimmed(pad[i])
    requires |t| > 0 && !IsTrimmed(t[0]) && !IsTrimmed(t[|t| - 1])
    ensures JavaTrim(pad + t + pad) == t
  {
    assert pad + t + pad == pad + (t + pad);
    assert (t + pad)[0] == t[0];
    JavaTrimFront(pad, t + pad);
    JavaTrimBack(t, pad);
  }

  lemma {:induction false} JavaTrimFront(pad: string, t: string)
    requires forall i :: 0 <= i < |pad| ==> IsTrimmed(pad[i])
    requires |t| > 0 && !IsTrimmed(t[0])
    ensures JavaTrim(pad + t) == JavaTrim(t)
  {
    if pad != [] {
      assert (pad + t)[1..] == pad[1..] + t;
      JavaTrimFront(pad[1..], t);
    } else {
      assert pad + t == t;
    }
  }

  lemma {:induction false} JavaTrimBack(t: string, pad: string)
    requires forall i :: 0 <= i < |pad| ==> IsTrimmed(pad[i])
    requires |t| > 0 && !IsTrimmed(t[0]) && !IsTrimmed(t[|t| - 1])
    ensures JavaTrim(t + pad) == t
  {
    if pad != [] {
      var p := pad[..|pad| - 1];
      assert (t + pad)[..|t + pad| - 1] == t + p;
      JavaTrimBack(t, p);
    } else {
      assert t + pad == t;
    }
  }

  /** `getCellValueAsDouble`: a number cell gives its value, a text cell its
      text read as a number after every `,` became `.`, a formula cell its
      numeric result or else its text result read the same way; anything
      else, and a text that is not a number, gives `null`. */
  function AsDouble(c: Cell): Option<real> {
    match c
    case Numeric(v) => Some(v)
    case Str(s) => ParseDouble(ReplaceChar(s, ',', '.'))
    case Formula(numeric, shown) =>
      if numeric.Some? then numeric
      else if shown.Some? then ParseDouble(ReplaceChar(shown.value, ',', '.'))
      else None
    case _ => None
  }

  /** `getCellValueAsString`: a text cell gives its text, a number or a truth
      value its `toString`, a formula cell its text result or else its
      numeric result's `toString`, or else `""`; anything else gives `""`.
      `show` is Kotlin's `Double.toString`. */
  function AsString(c: Cell, show: real -> string): string {
    match c
    case Str(s) => s
    case Numeric(v) => show(v)
    case Boolean(b) => if b then "true" else "false"
    case Formula(numeric, shown) =>
      if shown.Some? then shown.value
      else if numeric.Some? then show(numeric.value)
      else ""
    case _ => ""
  }

  /** A text cell holding a numeral written with a decimal comma, as a Slovak
      sheet shows it, reads as the numeral's value; so does a formula cell
      whose result is that text. */
  lemma CommaNumeralReads(n: Numeral)
    requires WellFormed(n)
    ensures AsDouble(Str(ReplaceChar(Spell(n), '.', ','))) == Some(Value(n))
    ensures AsDouble(Formula(None, Some(ReplaceChar(Spell(n), '.', ',')))) == Some(Value(n))
  {
    NumeralLacksComma(n);
    ReplaceRoundTrip(Spell(n), '.', ',');
    ParseDoubleReads(n, [], false);
    assert [] + (if false then "+" else "") + Spell(n) + [] == Spell(n);
  }

  /** The two coercions read a cell the same way: a text cell, and a formula
      cell without a numeric result, give as amount their text read as a
      number; a number cell, and a formula cell with only a numeric result,
      are described by their amount's `toString`. Truth values, blanks and
      errors have a text but never an amount. */
  lemma CoercionsAgree(c: Cell, show: real -> string)
    ensures c.Str? || (c.Formula? && c.numeric.None?) ==>
      AsDouble(c) == ParseDouble(ReplaceChar(AsString(c, show), ',', '.'))
    ensures c.Numeric? || (c.Formula? && c.numeric.Some? && c.shown.None?) ==>
      AsDouble(c).Some? && AsString(c, show) == show(AsDouble(c).value)
    ensures c.Boolean? || c.Blank? || c.Error? ==> AsDouble(c).None?
  {
  }

  /** The characters Kotlin's `Char.isWhitespace` accepts. */
  predicate IsWhitespace(c: char) {
    || ('\t' <= c <= '\r')
    || ('\U{1C}' <= c <= ' ')
    || c == '\U{A0}' || c == '\U{1680}'
    || ('\U{2000}' <= c <= '\U{200A}')
    || c == '\U{2028}' || c == '\U{2029}' || c == '\U{202F}' || c == '\U{205F}'
    || c == '\U{3000}'
  }

  /** `isBlank()`: empty or white space only. */
  predicate IsBlank(s: string) {
    forall i :: 0 <= i < |s| ==> IsWhitespace(s[i])
  }

  /** The part of the file name that names the item. */
  function NamePart(description: string): string {
    if IsBlank(description) then "imported" else ReplaceChar(description, ' ', '_')
  }

  /** The name of the file `saveAmountToFolder` writes: the time stamp, the
      description with its spaces made underscores (`imported` for a blank
      one), and the amount as `toString` writes it, followed by `€.txt`. */
  function FileName(stamp: string, description: string, amount: real, show: real -> string): (r: string)
    ensures |r| == |stamp| + 1 + |NamePart(description)| + 1 + |show(amount)| + 5
  {
    stamp + "_" + NamePart(description) + "_" + show(amount) + "€.txt"
  }

  /** The file name in its parts: it starts with the stamp and `_`, and ends
      with `_`, the amount and `€.txt`; between them stands the name part. */
  lemma FileNameParts(stamp: string, description: string, amount: real, show: real -> string)
    ensures var r := FileName(stamp, description, amount, show);
      var m := |stamp| + 1 + |NamePart(description)|;
      && r[..|stamp| + 1] == stamp + "_"
      && r[|stamp| + 1..m] == NamePart(description)
      && r[m] == '_'
      && r[m + 1..|r| - 5] == show(amount)
      && r[|r| - 5..] == "€.txt"
  {
    var r := FileName(stamp, description, amount, show);
    var part := NamePart(description);
    var m := |stamp| + 1 + |part|;
    assert r == (stamp + "_") + part + "_" + show(amount) + "€.txt";
    assert r[|stamp| + 1..m] == part;
    assert r[m + 1..|r| - 5] == show(amount);
  }

  /** The name part holds no space: it is `imported` for a blank description,
      and otherwise the description with every space, and only the spaces,
      made an underscore. */
  lemma NamePartSpec(description: string)
    ensures Lacks(NamePart(description), ' ')
    ensures IsBlank(description) ==> NamePart(description) == "imported"
    ensures !IsBlank(description) ==>
      && |NamePart(description)| == |description|
      && forall i :: 0 <= i < |description| ==>
           NamePart(description)[i] == if description[i] == ' ' then '_' else description[i]
  {
    ReplaceCharAt(description, ' ', '_');
  }

  /** The description is read back from the file name by turning its
      underscores into spaces, when it has no underscore of its own and is
      not blank. */
  lemma FileNameDescription(stamp: string, description: string, amount: real, show: real -> string)
    requires !IsBlank(description) && Lacks(description, '_')
    ensures var r := FileName(stamp, description, amount, show);
      ReplaceChar(r[|stamp| + 1..|stamp| + 1 + |description|], '_', ' ') == description
  {
    var r := FileName(stamp, description, amount, show);
    assert r == (stamp + "_") + ReplaceChar(description, ' ', '_') + ("_" + show(amount) + "€.txt");
    assert r[|stamp| + 1..|stamp| + 1 + |description|] == ReplaceChar(description, ' ', '_');
    ReplaceRoundTrip(description, ' ', '_');
  }

  /** What row `i` hands to `saveAmountToFolder`: its description and amount,
      or nothing when the row or one of its first two cells is missing, or
      the amount cell gives no number. */
  function RowItem(sheet: Sheet, i: int, show: real -> string): Option<(string, real)> {
    if i !in sheet.rows then None
    else
      var cells := sheet.rows[i].cells;
      if 0 !in cells || 1 !in cells then None
      else match AsDouble(cells[1])
        case None => None
        case Some(v) => Some((AsString(cells[0], show), v))
  }

  /** The items of rows `1` up to, not including, `k`, in row order. */
  function Items(sheet: Sheet, show: real -> string, k: int): (r: seq<(string, real)>)
    ensures |r| <= if k <= 1 then 0 else k - 1
    decreases k
  {
    if k <= 1 then []
    else
      var r := Items(sheet, show, k - 1);
      match RowItem(sheet, k - 1, show)
      case None => r
      case Some(item) => r + [item]
  }

  /** Where the loop stops: after the last row, or at the row where a library
      call throws (`fault`), the exception ending the import. */
  function Stop(sheet: Sheet, fault: Option<int>): int {
    if fault.Some? && 1 <= fault.value <= sheet.lastRowNum then fault.value
    else sheet.lastRowNum + 1
  }

  /** `importExcelFile`: the items saved, in row order, and their number.
      `source` is `None` when the stream cannot be opened or the workbook or
      its first sheet cannot be read; then nothing is imported. */
  method Import(source: Option<Sheet>, fault: Option<int>, show: real -> string) returns (count: int, saved: seq<(string, real)>)
    ensures count == |saved|
    ensures source.None? ==> count == 0
    ensures source.Some? ==> saved == Items(source.value, show, Stop(source.value, fault))
  {
    count, saved := 0, [];
    if source.None? {
      return;
    }
    var sheet := source.value;
    var rowIndex := 1;
    while rowIndex <= sheet.lastRowNum
      invariant 1 <= rowIndex
      invariant rowIndex == 1 || rowIndex <= sheet.lastRowNum + 1
      invariant fault.Some? && 1 <= fault.value <= sheet.lastRowNum ==> rowIndex <= fault.value
      invariant count == |saved|
      invariant saved == Items(sheet, show, rowIndex)
      decreases sheet.lastRowNum - rowIndex
    {
      if fault == Some(rowIndex) {
        return;
      }
      if rowIndex in sheet.rows {
        var row := sheet.rows[rowIndex];
        if 0 in row.cells && 1 in row.cells {
          var description := AsString(row.cells[0], show);
          var amount := AsDouble(row.cells[1]);
          if amount.Some? {
            saved := saved + [(description, amount.value)];
            count := count + 1;
          }
        }
      }
      rowIndex := rowIndex + 1;
    }
  }

  /** An import cut short by an exception has saved a prefix of what the whole
      import saves, so the count it reports is never larger. */
  lemma {:induction false} ItemsPrefix(sheet: Sheet, show: real -> string, j: int, k: int)
    requires j <= k
    ensures Items(sheet, show, j) <= Items(sheet, show, k)
    decreases k - j
  {
    if j < k {
      ItemsPrefix(sheet, show, j, k - 1);
      if k > 1 {
        assert Items(sheet, show, k - 1) <= Items(sheet, show, k);
      }
    }
  }

  /** The header row plays no part: replacing row 0 changes no item. */
  lemma {:induction false} ItemsIgnoreHeader(sheet: Sheet, row: Row, show: real -> string, k: int)
    ensures Items(Sheet(sheet.lastRowNum, sheet.rows[0 := row]), show, k) == Items(sheet, show, k)
    decreases k
  {
    if k > 1 {
      ItemsIgnoreHeader(sheet, row, show, k - 1);
      assert RowItem(Sheet(sheet.lastRowNum, sheet.rows[0 := row]), k - 1, show) == RowItem(sheet, k - 1, show);
    }
  }

  /** Every row with a description cell and a number in its amount cell is
      imported, as the `j`-th item for `j` the number of such rows before it. */
  lemma ItemsAt(sheet: Sheet, show: real -> string, i: int, k: int)
    requires 1 <= i < k
    requires RowItem(sheet, i, show).Some?
    ensures |Items(sheet, show, i)| < |Items(sheet, show, k)|
    ensures Items(sheet, show, k)[|Items(sheet, show, i)|] == RowItem(sheet, i, show).value
  {
    ItemsPrefix(sheet, show, i + 1, k);
    assert Items(sheet, show, i + 1) == Items(sheet, show, i) + [RowItem(sheet, i, show).value];
  }

  /** The rows from 1 up to, not including, `k` that give an item. */
  ghost function RowsGiving(sheet: Sheet, show: real -> string, k: int): set<int> {
    set i | 1 <= i < k && RowItem(sheet, i, show).Some?
  }

  /** The items of rows 1 up to `k` are as many as the rows that give one. */
  lemma {:induction false} ItemsCount(sheet: Sheet, show: real -> string, k: int)
    ensures |Items(sheet, show, k)| == |RowsGiving(sheet, show, k)|
    decreases k
  {
    if k <= 1 {
      assert RowsGiving(sheet, show, k) == {};
    } else {
      ItemsCount(sheet, show, k - 1);
      var before := RowsGiving(sheet, show, k - 1);
      if RowItem(sheet, k - 1, show).Some? {
        assert RowsGiving(sheet, show, k) == before + {k - 1};
        assert k - 1 !in before;
      } else {
        assert RowsGiving(sheet, show, k) == before;
      }
    }
  }

  /** The count of a full import is the number of rows after the header that
      give an amount, and so at most the number of those rows. */
  lemma ImportCount(sheet: Sheet, show: real -> string)
    ensures |Items(sheet, show, Stop(sheet, None))| == |RowsGiving(sheet, show, sheet.lastRowNum + 1)|
    ensures |Items(sheet, show, Stop(sheet, None))| <= if sheet.lastRowNum < 1 then 0 else sheet.lastRowNum
  {
    ItemsCount(sheet, show, sheet.lastRowNum + 1);
  }
}
