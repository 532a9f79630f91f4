/**
 The spreadsheet converter: every row of a sheet becomes a `description |
 amount` line when its second column holds a number, and is counted as
 invalid otherwise; a footer gives the total and the two counts.
 */
module ExcelToBlocky {
  import opened Text
  import opened Optional
  import opened Decimal
  import opened Seqs

  /** A cell as the data-frame reader hands it over: text, a number, a
      boolean, an empty cell (which the reader turns into NaN), or a value of
      any other kind (a date, say), shown by `str` as `shown`. */
  datatype Cell =
    | Str(text: string)
    | Num(value: real)
    | Bool(flag: bool)
    | Empty
    | Other(shown: string)

  /** A sheet: its number of columns and its rows, each a cell per column. */
  datatype Sheet = Sheet(columns: nat, rows: seq<seq<Cell>>)

  /** A data frame is rectangular: every row has a cell in every column. */
  predicate Rectangular(sheet: Sheet) {
    forall j :: 0 <= j < |sheet.rows| ==> |sheet.rows[j]| == sheet.columns
  }

  /** A Python float as it can arise here: a finite value, or NaN. */
  datatype PyFloat = Finite(value: real) | NaN

  /** Float addition; NaN absorbs everything. */
  function Plus(a: PyFloat, b: PyFloat): PyFloat {
    if a.Finite? && b.Finite? then Finite(a.value + b.value) else NaN
  }

  /** `float(value)` for the value of a cell; `None` where it raises
      `ValueError` (text that is not a numeral) or `TypeError` (other kinds).
      `float` ignores white space around text; a boolean is 1 or 0. */
  function ToFloat(c: Cell): Option<PyFloat> {
    match c
    case Str(s) =>
      (match ReadFloat(Strip(s))
       case None => None
       case Some(v) => Some(Finite(v)))
    case Num(v) => Some(Finite(v))
    case Bool(b) => Some(Finite(if b then 1.0 else 0.0))
    case Empty => Some(NaN)
    case Other(_) => None
  }

  /** `str(value).strip()` for the value of a cell; `repr` is how `str`
      writes a number. */
  function Describe(c: Cell, repr: real -> string): string {
    Strip(match c
      case Str(s) => s
      case Num(v) => repr(v)
      case Bool(b) => if b then "True" else "False"
      case Empty => "nan"
      case Other(shown) => shown)
  }

  /** `f"{x:.2f}"` for a float. */
  function FloatText(x: PyFloat): string {
    match x
    case Finite(v) => Fixed2(v)
    case NaN => "nan"
  }

  /** An amount as a line shows it: two decimals, with a decimal comma. */
  function AmountText(x: PyFloat): string {
    ReplaceChar(FloatText(x), '.', ',')
  }

  /** The line of an item. */
  function ItemLine(e: (string, PyFloat)): string {
    e.0 + " | " + AmountText(e.1)
  }

  /** The item of a row given as (description cell, amount cell): its
      stripped description and its amount, when the amount cell converts. */
  function Entry(pair: (Cell, Cell), repr: real -> string): Option<(string, PyFloat)> {
    match ToFloat(pair.1)
    case None => None
    case Some(x) => Some((Describe(pair.0, repr), x))
  }

  /** An optional item as a sequence of zero or one items. */
  function Listed(e: Option<(string, PyFloat)>): (r: seq<(string, PyFloat)>)
    ensures |r| == if e.Some? then 1 else 0
  {
    if e.Some? then [e.value] else []
  }

  /** The items of the rows, one per row whose amount cell converts, in row
      order. */
  function Entries(pairs: seq<(Cell, Cell)>, repr: real -> string): (r: seq<(string, PyFloat)>)
    ensures |r| <= |pairs|
  {
    if pairs == [] then []
    else Entries(pairs[..|pairs| - 1], repr) + Listed(Entry(pairs[|pairs| - 1], repr))
  }

  /** The rows whose amount cell does not convert. */
  function Invalid(pairs: seq<(Cell, Cell)>): nat {
    if pairs == [] then 0
    else Invalid(pairs[..|pairs| - 1]) + (if ToFloat(pairs[|pairs| - 1].1).None? then 1 else 0)
  }

  /** The total of the converted amounts, added row by row from 0. */
  function Total(pairs: seq<(Cell, Cell)>): PyFloat {
    if pairs == [] then Finite(0.0)
    else
      var t := Total(pairs[..|pairs| - 1]);
      match ToFloat(pairs[|pairs| - 1].1)
      case None => t
      case Some(x) => Plus(t, x)
  }

  /** The sum of the amounts of some items. */
  function EntrySum(es: seq<(string, PyFloat)>): PyFloat {
    if es == [] then Finite(0.0) else Plus(EntrySum(es[..|es| - 1]), es[|es| - 1].1)
  }

  /** Every row is valid or invalid and not both: the items and the invalid
      rows together are all the rows. */
  lemma {:induction false} EntriesPartition(pairs: seq<(Cell, Cell)>, repr: real -> string)
    ensures |Entries(pairs, repr)| + Invalid(pairs) == |pairs|
  {
    if pairs != [] {
      EntriesPartition(pairs[..|pairs| - 1], repr);
    }
  }

  lemma {:induction false} EntrySumAppend(es: seq<(string, PyFloat)>, e: (string, PyFloat))
    ensures EntrySum(es + [e]) == Plus(EntrySum(es), e.1)
  {
    assert (es + [e])[..|es + [e]| - 1] == es;
  }

  /** One more row: what it adds to the items, the invalid count and the
      total. */
  lemma Step(pairs: seq<(Cell, Cell)>, j: nat, repr: real -> string)
    requires j < |pairs|
    ensures Entries(pairs[..j + 1], repr) == Entries(pairs[..j], repr) + Listed(Entry(pairs[j], repr))
    ensures Invalid(pairs[..j + 1]) == Invalid(pairs[..j]) + (if ToFloat(pairs[j].1).None? then 1 else 0)
    ensures Total(pairs[..j + 1]) == if ToFloat(pairs[j].1).None? then Total(pairs[..j])
                                     else Plus(Total(pairs[..j]), ToFloat(pairs[j].1).value)
  {
    assert pairs[..j + 1][..j] == pairs[..j];
    assert pairs[..j + 1][j] == pairs[j];
  }

  /** The total is the sum of the amounts the item lines show. */
  lemma {:induction false} TotalOfEntries(pairs: seq<(Cell, Cell)>, repr: real -> string)
    ensures Total(pairs) == EntrySum(Entries(pairs, repr))
  {
    if pairs != [] {
      var n := |pairs| - 1;
      TotalOfEntries(pairs[..n], repr);
      Step(pairs, n, repr);
      assert pairs[..n + 1] == pairs;
      var e := Entries(pairs[..n], repr);
      var x := ToFloat(pairs[n].1);
      if x.Some? {
        assert Entries(pairs, repr) == e + [(Describe(pairs[n].0, repr), x.value)];
        EntrySumAppend(e, (Describe(pairs[n].0, repr), x.value));
      } else {
        assert Entries(pairs, repr) == e + [];
        assert e + [] == e;
      }
    }
  }

  /** The total is NaN exactly when some row's amount cell is empty. */
  lemma {:induction false} TotalNaN(pairs: seq<(Cell, Cell)>)
    ensures Total(pairs) == NaN <==> exists j :: 0 <= j < |pairs| && pairs[j].1 == Empty
  {
    if pairs != [] {
      var n := |pairs| - 1;
      TotalNaN(pairs[..n]);
      if exists j :: 0 <= j < n && pairs[..n][j].1 == Empty {
        var j :| 0 <= j < n && pairs[..n][j].1 == Empty;
        assert pairs[j] == pairs[..n][j];
      }
      if exists j :: 0 <= j < |pairs| && pairs[j].1 == Empty {
        var j :| 0 <= j < |pairs| && pairs[j].1 == Empty;
        if j < n {
          assert pairs[..n][j] == pairs[j];
        }
      }
    }
  }

  /** An item line ends in its amount written to cents with a decimal comma;
      turning the comma back into a point reads as the amount rounded to
      cents. */
  lemma AmountTextReads(v: real)
    ensures ReplaceChar(AmountText(Finite(v)), ',', '.') == Fixed2(v)
    ensures ReadFloat(ReplaceChar(AmountText(Finite(v)), ',', '.')) == Some(Round2(v))
  {
    var n := Fixed2Numeral(v);
    NumeralLacksComma(n);
    ReplaceRoundTrip(Fixed2(v), '.', ',');
    Fixed2Reads(v);
  }

  /** One more row, as the loop sees it: a line more when its amount
      converts, an invalid row more when it does not. */
  lemma Advance(pairs: seq<(Cell, Cell)>, j: nat, repr: real -> string)
    requires j < |pairs|
    ensures var x := ToFloat(pairs[j].1);
      && |Entries(pairs[..j + 1], repr)| == |Entries(pairs[..j], repr)| + (if x.Some? then 1 else 0)
      && Map(ItemLine, Entries(pairs[..j + 1], repr)) == Map(ItemLine, Entries(pairs[..j], repr))
           + (if x.Some? then [ItemLine((Describe(pairs[j].0, repr), x.value))] else [])
      && Invalid(pairs[..j + 1]) == Invalid(pairs[..j]) + (if x.Some? then 0 else 1)
      && Total(pairs[..j + 1]) == if x.Some? then Plus(Total(pairs[..j]), x.value) else Total(pairs[..j])
  {
    Step(pairs, j, repr);
    var es := Entries(pairs[..j], repr);
    var x := ToFloat(pairs[j].1);
    if x.Some? {
      var e := (Describe(pairs[j].0, repr), x.value);
      assert Entries(pairs[..j + 1], repr) == es + [e];
      MapAppend(ItemLine, es, e);
    } else {
      assert es + [] == es;
      assert Entries(pairs[..j + 1], repr) == es;
    }
  }

  /** The row loop: reads every row, writes a line for each row whose amount
      converts and adds its amount to the total, and counts every other row
      as invalid. */
  method ConvertRows(pairs: seq<(Cell, Cell)>, repr: real -> string)
    returns (lines: seq<string>, total: PyFloat, valid: nat, invalid: nat)
    ensures valid == |Entries(pairs, repr)| && invalid == Invalid(pairs)
    ensures lines == Map(ItemLine, Entries(pairs, repr))
    ensures total == EntrySum(Entries(pairs, repr))
  {
    lines, total, valid, invalid := [], Finite(0.0), 0, 0;
    var j := 0;
    while j < |pairs|
      invariant j <= |pairs|
      invariant valid == |Entries(pairs[..j], repr)| && invalid == Invalid(pairs[..j])
      invariant lines == Map(ItemLine, Entries(pairs[..j], repr))
      invariant total == Total(pairs[..j])
    {
      Advance(pairs, j, repr);
      var description := Describe(pairs[j].0, repr);
      var amount := ToFloat(pairs[j].1);
      if amount.Some? {
        total := Plus(total, amount.value);
        lines := lines + [ItemLine((description, amount.value))];
        valid := valid + 1;
      } else {
        invalid := invalid + 1;
      }
      j := j + 1;
    }
    assert pairs[..j] == pairs;
    TotalOfEntries(pairs, repr);
  }

  /** The heading for a file named `source`, written at the time `created`. */
  function Heading(source: string, created: string): (r: seq<string>)
    ensures |r| == 7
  {
    ["# Položky pre import do aplikácie Blocky",
     "# Vytvorené: " + created,
     "# Zdrojový súbor: " + source,
     "#",
     "# Formát: Popis | Suma",
     "# Záporné sumy sú označené znamienkom mínus (-)",
     "#"]
  }

  /** The footer: the total and the item count always, the invalid count only
      when some row was invalid. */
  function Footer(total: PyFloat, valid: nat, invalid: nat): (r: seq<string>)
    ensures |r| == if invalid > 0 then 4 else 3
  {
    ["#", "# Celková suma: " + FloatText(total), "# Počet položiek: " + NatToString(valid)]
      + if invalid > 0 then ["# Počet neplatných položiek: " + NatToString(invalid)] else []
  }

  /** The converter: `None` (it returns `False`) for a sheet with fewer than
      two columns, before anything is written; otherwise the lines of the
      output file. Only the first two columns are read. */
  method Convert(sheet: Sheet, source: string, created: string, repr: real -> string)
    returns (r: Option<seq<string>>)
    requires Rectangular(sheet)
    ensures r.None? <==> sheet.columns < 2
    ensures r.Some? ==>
      var es := Entries(Pairs(sheet), repr);
      && |es| <= |sheet.rows|
      && r.value == Heading(source, created) + Map(ItemLine, es) + Footer(EntrySum(es), |es|, |sheet.rows| - |es|)
  {
    if sheet.columns < 2 {
      return None;
    }
    var lines, total, valid, invalid := ConvertRows(Pairs(sheet), repr);
    EntriesPartition(Pairs(sheet), repr);
    ghost var es := Entries(Pairs(sheet), repr);
    assert valid == |es| && invalid == |sheet.rows| - |es|;
    r := Some(Heading(source, created) + lines + Footer(total, valid, invalid));
  }

  /** The (description, amount) cells of every row: its first two cells. */
  function Pairs(sheet: Sheet): (r: seq<(Cell, Cell)>)
    requires Rectangular(sheet) && sheet.columns >= 2
    ensures |r| == |sheet.rows|
  {
    seq(|sheet.rows|, j requires 0 <= j < |sheet.rows| => (sheet.rows[j][0], sheet.rows[j][1]))
  }

  /** Columns after the second do not matter: sheets that agree on the first
      two cells of every row convert alike. */
  lemma FirstTwoColumns(a: Sheet, b: Sheet)
    requires Rectangular(a) && Rectangular(b) && a.columns >= 2 && b.columns >= 2
    requires |a.rows| == |b.rows|
    requires forall j :: 0 <= j < |a.rows| ==> a.rows[j][..2] == b.rows[j][..2]
    ensures Pairs(a) == Pairs(b)
  {
    forall j | 0 <= j < |a.rows|
      ensures Pairs(a)[j] == Pairs(b)[j]
    {
      assert a.rows[j][0] == a.rows[j][..2][0] && a.rows[j][1] == a.rows[j][..2][1];
      assert b.rows[j][0] == b.rows[j][..2][0] && b.rows[j][1] == b.rows[j][..2][1];
    }
  }
}
