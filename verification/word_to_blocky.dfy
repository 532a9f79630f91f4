/**
 The document-table extractor: line items from the tables of a document, or,
 when the tables yield none, from "label: amount" phrases in its paragraphs;
 and the text file of `description | amount` lines with a summary footer.
 */
module WordToBlocky {
  import opened Text
  import opened Optional
  import opened Decimal
  import opened Scan
  import opened Docx
  import opened Seqs

  /** A line item: what was paid for and the signed amount. */
  datatype Item = Item(description: string, amount: real)

  /** The characters `extract_amount` keeps: digits, `-`, `.` and `,`. */
  predicate IsAmountChar(c: char) {
    IsDigit(c) || c == '-' || c == '.' || c == ','
  }

  /** `re.sub(r'[^\d\-.,]', '', text)`: every other character removed. */
  function KeepAmountChars(s: string): (r: string)
    ensures |r| <= |s|
    ensures forall i :: 0 <= i < |r| ==> IsAmountChar(r[i])
  {
    if s == [] then []
    else (if IsAmountChar(s[0]) then [s[0]] else []) + KeepAmountChars(s[1..])
  }

  /** Removal works piece by piece: the kept characters of `a + b` are those
      of `a` followed by those of `b`, in order. */
  lemma {:induction false} KeepAppend(a: string, b: string)
    ensures KeepAmountChars(a + b) == KeepAmountChars(a) + KeepAmountChars(b)
  {
    if a != [] {
      assert (a + b)[1..] == a[1..] + b;
      KeepAppend(a[1..], b);
    } else {
      assert a + b == b;
    }
  }

  /** A text made only of kept characters passes through unchanged. */
  lemma {:induction false} KeepClean(s: string)
    requires forall i :: 0 <= i < |s| ==> IsAmountChar(s[i])
    ensures KeepAmountChars(s) == s
  {
    if s != [] {
      KeepClean(s[1..]);
    }
  }

  /** The text `extract_amount` hands to `float`: the kept characters with
      every `,` turned into `.`. */
  function Normalize(text: string): string {
    ReplaceChar(KeepAmountChars(text), ',', '.')
  }

  /** `extract_amount(text)`: the value of the normalized text read as a
      number, `None` when `float` rejects it. */
  function ExtractAmount(text: string): Option<real> {
    ReadFloat(Normalize(text))
  }

  /** `extract_amount` returns `None` exactly when the normalized text is not
      a numeral `-?(\d+(\.\d*)?|\.\d+)`, and otherwise that numeral's value. */
  lemma ExtractAmountSpec(text: string)
    ensures ExtractAmount(text).None? <==> !IsNumeralText(Normalize(text))
    ensures forall n :: WellFormed(n) && Spell(n) == Normalize(text) ==>
      ExtractAmount(text) == Some(Value(n))
  {
    ParseAccepts(Normalize(text));
    SpellUnique(Normalize(text));
  }

  /** A text whose normalized form spells a numeral yields that numeral's value. */
  lemma ExtractSpelled(text: string, n: Numeral)
    requires WellFormed(n) && Normalize(text) == Spell(n)
    ensures ExtractAmount(text) == Some(Value(n))
  {
    ParseSpell(n);
  }

  /** A signed amount with a currency sign: the sign goes, the minus stays. */
  lemma ExtractAmountSigned()
    ensures ExtractAmount("-12.3€") == Some(-12.3)
  {
    var n := Numeral(true, "12", true, "3");
    SignedText(n);
    SignedValue(n);
    ExtractSpelled("-12.3€", n);
  }

  lemma SignedText(n: Numeral)
    requires n == Numeral(true, "12", true, "3")
    ensures WellFormed(n) && Normalize("-12.3€") == Spell(n)
  {
    assert Spell(n) == "-12.3";
    KeepClean("-12.3");
    assert "-12.3€" == "-12.3" + "€";
    KeepAppend("-12.3", "€");
    assert KeepAmountChars("€") == [];
    ReplaceAbsent("-12.3", ',', '.');
  }

  lemma SignedValue(n: Numeral)
    requires n == Numeral(true, "12", true, "3")
    ensures WellFormed(n) && Value(n) == -12.3
  {
    DigitsExample();
    NumeralValue(n, 12, 3, 10);
  }

  /** A decimal comma reads as a point. */
  lemma ExtractAmountComma()
    ensures ExtractAmount("123,45") == Some(123.45)
  {
    var n := Numeral(false, "123", true, "45");
    CommaText(n);
    CommaValue(n);
    ExtractSpelled("123,45", n);
  }

  lemma CommaText(n: Numeral)
    requires n == Numeral(false, "123", true, "45")
    ensures WellFormed(n) && Normalize("123,45") == Spell(n)
  {
    KeepClean("123,45");
    assert "123,45" == "123" + ("," + "45");
    ReplaceAbsent("123", ',', '.');
    ReplaceAbsent("45", ',', '.');
    ReplaceAppend("123", "," + "45", ',', '.');
    ReplaceAppend(",", "45", ',', '.');
    assert ReplaceChar(",", ',', '.') == ".";
    assert Spell(n) == "" + ("123" + ("." + "45"));
  }

  lemma CommaValue(n: Numeral)
    requires n == Numeral(false, "123", true, "45")
    ensures WellFormed(n) && Value(n) == 123.45
  {
    DigitsExample();
    NumeralValue(n, 123, 45, 100);
  }

  /** The digit strings of the examples. */
  lemma DigitsExample()
    ensures DigitsValue("3") == 3 && DigitsValue("12") == 12
    ensures DigitsValue("45") == 45 && DigitsValue("123") == 123
    ensures Pow10(1) == 10 && Pow10(2) == 100
  {
    assert "12"[..1] == "1";
    assert "45"[..1] == "4";
    assert "123"[..2] == "12";
  }

  /** The value of a numeral from the values of its digit strings. */
  lemma NumeralValue(n: Numeral, w: nat, f: nat, scale: nat)
    requires WellFormed(n) && DigitsValue(n.whole) == w && DigitsValue(n.fraction) == f
    requires Pow10(|n.fraction|) == scale
    ensures n.negative ==> Value(n) == -(w as real + f as real / scale as real)
    ensures !n.negative ==> Value(n) == w as real + f as real / scale as real
  {
  }

  /** `extract_amount` rejects every text that keeps two separators, `.`
      or `,`, in any order: a thousands separator makes the amount unreadable. */
  lemma TwoSeparatorsRejected(text: string, i: nat, j: nat)
    requires i < j < |KeepAmountChars(text)|
    requires IsSep(KeepAmountChars(text)[i]) && IsSep(KeepAmountChars(text)[j])
    ensures ExtractAmount(text) == None
  {
    ReplaceCharAt(KeepAmountChars(text), ',', '.');
    assert Normalize(text)[i] == '.' && Normalize(text)[j] == '.';
    ParseOnePoint(Normalize(text));
  }

  /** The thousands-separated amount the converter is documented with. */
  lemma ExtractAmountThousands()
    ensures ExtractAmount("1.234,56") == None
  {
    KeepClean("1.234,56");
    TwoSeparatorsRejected("1.234,56", 1, 5);
  }

  /** A minus inside the number makes it unreadable, and so does nothing. */
  lemma ExtractAmountRejects()
    ensures ExtractAmount("1-2") == None
    ensures ExtractAmount("abc") == None
  {
    RejectsInnerSign();
    RejectsLetters();
  }

  lemma RejectsInnerSign()
    ensures ExtractAmount("1-2") == None
  {
    KeepsInnerSign();
    assert DigitRun("1-2") == 1;
    assert "1-2"[1..][0] == '-';
  }

  lemma KeepsInnerSign()
    ensures Normalize("1-2") == "1-2"
  {
    assert KeepAmountChars("1-2") == "1-2";
  }

  lemma RejectsLetters()
    ensures ExtractAmount("abc") == None
  {
    assert KeepAmountChars("abc") == "";
    assert Normalize("abc") == "";
  }

  /** Already clean numerals come through unchanged, with either separator. */
  lemma ExtractNumeral(n: Numeral)
    requires WellFormed(n)
    ensures ExtractAmount(Spell(n)) == Some(Value(n))
    ensures ExtractAmount(ReplaceChar(Spell(n), '.', ',')) == Some(Value(n))
  {
    var s := Spell(n);
    SpellChars(n);
    KeepClean(s);
    ReplaceAbsent(s, ',', '.');
    var t := ReplaceChar(s, '.', ',');
    ReplaceCharAt(s, '.', ',');
    KeepClean(t);
    ReplaceRoundTrip(s, '.', ',');
    ParseSpell(n);
  }

  /** A numeral's text holds only digits, `-` and `.`. */
  lemma SpellChars(n: Numeral)
    requires WellFormed(n)
    ensures forall i :: 0 <= i < |Spell(n)| ==> IsAmountChar(Spell(n)[i]) && Spell(n)[i] != ','
  {
    var sign := if n.negative then "-" else "";
    var pt := if n.point then "." else "";
    assert Spell(n) == sign + n.whole + pt + n.fraction;
    forall i | 0 <= i < |Spell(n)|
      ensures IsAmountChar(Spell(n)[i]) && Spell(n)[i] != ','
    {
      if i < |sign| {
      } else if i < |sign| + |n.whole| {
        assert Spell(n)[i] == n.whole[i - |sign|];
      } else if i < |sign| + |n.whole| + |pt| {
      } else {
        assert Spell(n)[i] == n.fraction[i - |sign| - |n.whole| - |pt|];
      }
    }
  }

  /** Every text the pattern `-?\d+[.,]?\d*` matches is accepted by
      `extract_amount`: a number the paragraph pattern captures always converts. */
  lemma LooseNumberConverts(t: string)
    requires LooseNumber(t)
    ensures ExtractAmount(t).Some?
  {
    var n := LooseNumeral(t);
    SpellChars(n);
    ReplaceCharAt(t, ',', '.');
    assert forall i :: 0 <= i < |t| ==> IsAmountChar(t[i]) by {
      forall i | 0 <= i < |t|
        ensures IsAmountChar(t[i])
      {
        assert ReplaceChar(t, ',', '.')[i] == Spell(n)[i];
      }
    }
    KeepClean(t);
    ParseSpell(n);
  }

  /** The item a table row yields: it needs two cells and an amount that
      `extract_amount` accepts in the stripped second cell; the description
      is the stripped first cell. Cells after the second are ignored. */
  function RowItem(cells: seq<string>): (r: Option<Item>)
    ensures r.Some? <==> |cells| >= 2 && ExtractAmount(Strip(cells[1])).Some?
    ensures r.Some? ==> r.value.description == Strip(cells[0])
                        && Some(r.value.amount) == ExtractAmount(Strip(cells[1]))
  {
    if |cells| < 2 then None
    else
      match ExtractAmount(Strip(cells[1]))
      case None => None
      case Some(v) => Some(Item(Strip(cells[0]), v))
  }

  /** A row yields an item exactly when it has two cells and its stripped
      second cell, cleaned and with `,` read as `.`, spells a numeral; the
      item is the stripped first cell and that numeral's value. */
  lemma RowItemSpec(cells: seq<string>)
    ensures RowItem(cells).Some? <==> |cells| >= 2 && IsNumeralText(Normalize(Strip(cells[1])))
    ensures |cells| >= 2 ==> forall n :: WellFormed(n) && Spell(n) == Normalize(Strip(cells[1])) ==>
      RowItem(cells) == Some(Item(Strip(cells[0]), Value(n)))
  {
    if |cells| >= 2 {
      ExtractAmountSpec(Strip(cells[1]));
    }
  }

  /** The items of a run of rows, in row order. */
  function RowItems(rows: seq<seq<string>>): seq<Item> {
    FilterMap(RowItem, rows)
  }

  /** The items of every table, table after table, each skipping its row 0. */
  function TableItems(tables: seq<Table>): seq<Item> {
    if tables == [] then []
    else RowItems(BodyRows(tables[0])) + TableItems(tables[1..])
  }

  /** All body rows of all tables, in document order. */
  function AllBodyRows(tables: seq<Table>): seq<seq<string>> {
    if tables == [] then [] else BodyRows(tables[0]) + AllBodyRows(tables[1..])
  }

  /** Item order follows table order, then row order: the table items are the
      items of all body rows taken as one run. */
  lemma {:induction false} TableItemsInOrder(tables: seq<Table>)
    ensures TableItems(tables) == RowItems(AllBodyRows(tables))
  {
    if tables != [] {
      TableItemsInOrder(tables[1..]);
      FilterMapAppend(RowItem, BodyRows(tables[0]), AllBodyRows(tables[1..]));
    }
  }

  /** Some row of `t` after its header row yields an item. */
  ghost predicate TableHasItem(t: Table) {
    exists j :: 1 <= j < |t.rows| && RowItem(t.rows[j]).Some?
  }

  /** Some body row of some table yields an item. */
  ghost predicate HasTableItem(tables: seq<Table>) {
    exists k :: 0 <= k < |tables| && TableHasItem(tables[k])
  }

  /** A table yields no item exactly when none of its body rows does. */
  lemma BodyItemsEmpty(t: Table)
    ensures RowItems(BodyRows(t)) == [] <==> !TableHasItem(t)
  {
    FilterMapEmpty(RowItem, BodyRows(t));
    assert forall j :: 1 <= j < |t.rows| ==> t.rows[j] == BodyRows(t)[j - 1];
    if TableHasItem(t) {
      var j :| 1 <= j < |t.rows| && RowItem(t.rows[j]).Some?;
      assert RowItem(BodyRows(t)[j - 1]).Some?;
    }
  }

  /** The tables yield no item exactly when no body row of any table does. */
  lemma {:induction false} TableItemsEmpty(tables: seq<Table>)
    ensures TableItems(tables) == [] <==> !HasTableItem(tables)
  {
    if tables != [] {
      TableItemsEmpty(tables[1..]);
      BodyItemsEmpty(tables[0]);
      HasTableItemCons(tables);
    }
  }

  /** Some table has an item exactly when the first one or a later one does. */
  lemma HasTableItemCons(tables: seq<Table>)
    requires tables != []
    ensures HasTableItem(tables) <==> TableHasItem(tables[0]) || HasTableItem(tables[1..])
  {
    if HasTableItem(tables) {
      var k :| 0 <= k < |tables| && TableHasItem(tables[k]);
      if k > 0 {
        assert tables[1..][k - 1] == tables[k];
      }
    }
    if HasTableItem(tables[1..]) {
      var k :| 0 <= k < |tables[1..]| && TableHasItem(tables[1..][k]);
      assert tables[k + 1] == tables[1..][k];
    }
  }

  /** One match of `([^:]+):\s*([\-]?\d+[.,]?\d*)\s*€?`: its two groups. */
  datatype LabelMatch = LabelMatch(caption: string, number: string)

  /** One step of `re.findall` from position `p`: no further match, no match
      before `next`, or a match that ends just before `next`. */
  datatype Step = Done | Skip(next: nat) | Found(m: LabelMatch, next: nat)

  /** One step of the paragraph pattern's search from `p`. A match needs a
      non-empty run of non-colons ending at a colon; that run is the label.
      After the colon and any white space a number must start, or no match
      starts anywhere before the colon and the search resumes after it. A
      match swallows the white space and `€` after the number. */
  function SearchStep(s: string, p: nat): (r: Step)
    requires p <= |s|
    ensures !r.Done? ==> p < r.next <= |s|
  {
    if p == |s| then Done
    else
      var c := FindChar(s, p, ':');
      if c == |s| then Done
      else if c == p then Skip(p + 1)
      else
        var q := SkipSpaces(s, c + 1);
        match LooseNumberEnd(s, q)
        case None => Skip(c + 1)
        case Some(e) =>
          var m := SkipSpaces(s, e);
          var next := if m < |s| && s[m] == '€' then m + 1 else m;
          Found(LabelMatch(s[p..c], s[q..e]), next)
  }

  /** `re.findall` of the paragraph pattern over `s`, searching from `p`:
      the groups of every match, left to right. */
  function FindLabelled(s: string, p: nat): (r: seq<LabelMatch>)
    requires p <= |s|
    ensures |r| <= |s| - p
    decreases |s| - p
  {
    match SearchStep(s, p)
    case Done => []
    case Skip(next) => FindLabelled(s, next)
    case Found(m, next) => [m] + FindLabelled(s, next)
  }

  /** What the pattern captures: a non-empty label without a colon, and a
      text the number pattern matches. */
  predicate WellCaptured(m: LabelMatch) {
    m.caption != [] && Lacks(m.caption, ':') && LooseNumber(m.number)
  }

  /** Every match in `ms` has the shape the pattern demands. */
  ghost predicate AllCaptured(ms: seq<LabelMatch>) {
    forall k :: 0 <= k < |ms| ==> WellCaptured(ms[k])
  }

  /** A match one search step finds has the shape the pattern demands. */
  lemma StepCaptured(s: string, p: nat)
    requires p <= |s| && SearchStep(s, p).Found?
    ensures WellCaptured(SearchStep(s, p).m)
  {
    var c := FindChar(s, p, ':');
    var q := SkipSpaces(s, c + 1);
    FindCharFirst(s, p, ':');
    LooseNumberEndMatches(s, q);
  }

  /** Every match `FindLabelled` reports has the shape the pattern demands. */
  lemma {:induction false} FindLabelledShape(s: string, p: nat)
    requires p <= |s|
    ensures AllCaptured(FindLabelled(s, p))
    decreases |s| - p
  {
    match SearchStep(s, p)
    case Done =>
    case Skip(next) =>
      FindLabelledShape(s, next);
    case Found(m, next) =>
      FindLabelledShape(s, next);
      StepCaptured(s, p);
      AllCapturedCons(m, FindLabelled(s, next));
  }

  lemma AllCapturedCons(m: LabelMatch, ms: seq<LabelMatch>)
    requires WellCaptured(m) && AllCaptured(ms)
    ensures AllCaptured([m] + ms)
  {
    assert forall k :: 1 <= k < |ms| + 1 ==> ([m] + ms)[k] == ms[k - 1];
  }

  /** `\s*€?`: white space, then at most one `€`. */
  predicate Trailer(t: string) {
    AllSpace(t) || (|t| > 0 && t[|t| - 1] == '€' && AllSpace(t[..|t| - 1]))
  }

  /** The paragraph pattern matches at `i` up to the end of its number: a
      non-empty colon-free label `s[i..c]`, the colon at `c`, white space up
      to `q`, and `s[q..e]` matched by the number pattern. What follows,
      `\s*€?`, matches anywhere. */
  predicate LabelledAt(s: string, i: nat, c: nat, q: nat, e: nat) {
    i < c < q < e <= |s| && Lacks(s[i..c], ':') && s[c] == ':'
    && AllSpace(s[c + 1..q]) && LooseNumber(s[q..e])
  }

  /** No match of the paragraph pattern starts at a position in `[p, n)`. */
  ghost predicate NoMatchFrom(s: string, p: nat, n: nat) {
    forall i, c, q, e :: p <= i < n ==> !LabelledAt(s, i, c, q, e)
  }

  /** The match the backtracking engine reports at `i`: the label runs to the
      colon at `c`, the number from `q` to the longest end `e`, and the
      longest `\s*€?` after it ends at `n`. */
  ghost predicate ChosenAt(s: string, i: nat, c: nat, q: nat, e: nat, n: nat) {
    && LabelledAt(s, i, c, q, e)
    && (forall f :: e < f <= |s| ==> !LabelledAt(s, i, c, q, f))
    && e <= n <= |s| && Trailer(s[e..n])
    && (forall f :: n < f <= |s| ==> !Trailer(s[e..f]))
  }

  /** A match at `i` has its colon at the first colon from `i` and its number
      right after the white space that follows, so both are fixed by `i`; its
      number ends no later than the greedy number match there. */
  lemma LabelledForced(s: string, i: nat, c: nat, q: nat, e: nat)
    requires LabelledAt(s, i, c, q, e)
    ensures c == FindChar(s, i, ':') && q == SkipSpaces(s, c + 1)
    ensures LooseNumberEnd(s, q).Some? && e <= LooseNumberEnd(s, q).value
  {
    FindCharTo(s, i, ':', c);
    LooseNumberStart(s[q..e]);
    assert s[q..e][0] == s[q];
    SkipSpacesTo(s, c + 1, q);
    LooseNumberEndFinds(s, q, e);
    LooseNumberEndMatches(s, q);
  }

  /** A step that skips or stops passes over no match: `Skip(n)` means no
      match starts in `[p, n)`, and `Done` that none starts from `p` on. */
  lemma StepNoMatch(s: string, p: nat)
    requires p <= |s|
    ensures SearchStep(s, p).Done? ==> NoMatchFrom(s, p, |s|)
    ensures SearchStep(s, p).Skip? ==> NoMatchFrom(s, p, SearchStep(s, p).next)
  {
    var r := SearchStep(s, p);
    if !r.Found? {
      var n := if r.Done? then |s| else r.next;
      forall i, c', q', e' | p <= i < n
        ensures !LabelledAt(s, i, c', q', e')
      {
        if LabelledAt(s, i, c', q', e') {
          NoMatchAt(s, p, i, c', q', e');
        }
      }
    }
  }

  /** One position, as `StepNoMatch` states for all of them. */
  lemma NoMatchAt(s: string, p: nat, i: nat, c': nat, q': nat, e': nat)
    requires p <= i && LabelledAt(s, i, c', q', e')
    requires p < |s| && !SearchStep(s, p).Found?
    ensures i >= (if SearchStep(s, p).Done? then |s| else SearchStep(s, p).next)
  {
    LabelledForced(s, i, c', q', e');
    var c := FindChar(s, p, ':');
    FindCharFirst(s, p, ':');
    if i <= c {
      FindCharFrom(s, p, i, ':');
    } else {
      assert s[p..c'][c - p] == s[c];
    }
  }

  /** A step that finds a match reports the one the engine takes at `p`: its
      label and number groups, and the position where the match ends. */
  lemma StepFound(s: string, p: nat) returns (c: nat, q: nat, e: nat)
    requires p <= |s| && SearchStep(s, p).Found?
    ensures ChosenAt(s, p, c, q, e, SearchStep(s, p).next)
    ensures SearchStep(s, p).m == LabelMatch(s[p..c], s[q..e])
  {
    c := FindChar(s, p, ':');
    q := SkipSpaces(s, c + 1);
    e := LooseNumberEnd(s, q).value;
    StepLabelled(s, p, c, q, e);
    TrailerLongest(s, e);
  }

  /** The pieces a finding step matches make a match, and its number is the
      longest one there. */
  lemma StepLabelled(s: string, p: nat, c: nat, q: nat, e: nat)
    requires p < c < |s| && c == FindChar(s, p, ':') && q == SkipSpaces(s, c + 1)
    requires LooseNumberEnd(s, q) == Some(e)
    ensures LabelledAt(s, p, c, q, e)
    ensures forall f :: e < f <= |s| ==> !LabelledAt(s, p, c, q, f)
  {
    FindCharFirst(s, p, ':');
    SkipSpacesAll(s, c + 1);
    LooseNumberEndMatches(s, q);
  }

  /** After the number, the step swallows the longest `\s*€?`. */
  lemma TrailerLongest(s: string, e: nat)
    requires e <= |s|
    ensures var m := SkipSpaces(s, e);
      var n := if m < |s| && s[m] == '€' then m + 1 else m;
      Trailer(s[e..n]) && forall f :: n < f <= |s| ==> !Trailer(s[e..f])
  {
    var m := SkipSpaces(s, e);
    var n := if m < |s| && s[m] == '€' then m + 1 else m;
    SkipSpacesAll(s, e);
    if n == m + 1 {
      assert s[e..n][..|s[e..n]| - 1] == s[e..m];
    }
    forall f | n < f <= |s|
      ensures !Trailer(s[e..f])
    {
      assert s[e..f][m - e] == s[m];
      if n == m + 1 {
        assert s[e..f][..f - e - 1][m - e] == s[m];
      } else if f - 1 > m {
        assert s[e..f][..f - e - 1][m - e] == s[m];
      }
    }
  }

  /** `re.findall` semantics: no match is reported exactly when no match
      starts from `p` on. */
  lemma {:induction false} FindLabelledEmpty(s: string, p: nat)
    requires p <= |s|
    ensures FindLabelled(s, p) == [] <==> NoMatchFrom(s, p, |s|)
    decreases |s| - p
  {
    StepNoMatch(s, p);
    match SearchStep(s, p)
    case Done =>
    case Skip(next) =>
      FindLabelledEmpty(s, next);
    case Found(m, next) =>
      var c, q, e := StepFound(s, p);
      assert LabelledAt(s, p, c, q, e);
  }

  /** `re.findall` semantics: the first match reported is the one the engine
      takes at the leftmost position where a match starts, and the rest are
      the matches from where it ends. */
  lemma {:induction false} FindLabelledHead(s: string, p: nat) returns (i: nat, c: nat, q: nat, e: nat, n: nat)
    requires p <= |s| && FindLabelled(s, p) != []
    ensures p <= i && NoMatchFrom(s, p, i) && ChosenAt(s, i, c, q, e, n)
    ensures FindLabelled(s, p) == [LabelMatch(s[i..c], s[q..e])] + FindLabelled(s, n)
    decreases |s| - p
  {
    StepNoMatch(s, p);
    match SearchStep(s, p)
    case Skip(next) =>
      i, c, q, e, n := FindLabelledHead(s, next);
    case Found(m, next) =>
      i, n := p, next;
      c, q, e := StepFound(s, p);
  }

  /** The item of one match: the stripped label and the amount, when
      `extract_amount` accepts the number. */
  function MatchItem(m: LabelMatch): Option<Item> {
    match ExtractAmount(m.number)
    case Some(v) => Some(Item(Strip(m.caption), v))
    case None => None
  }

  /** Every match of the paragraph pattern becomes an item, in order: the
      number the pattern captures always converts. */
  lemma MatchItemsAll(ms: seq<LabelMatch>)
    requires AllCaptured(ms)
    ensures |FilterMap(MatchItem, ms)| == |ms|
    ensures forall k :: 0 <= k < |ms| ==>
      FilterMap(MatchItem, ms)[k].description == Strip(ms[k].caption)
      && ExtractAmount(ms[k].number) == Some(FilterMap(MatchItem, ms)[k].amount)
  {
    forall k | 0 <= k < |ms|
      ensures MatchItem(ms[k]).Some?
    {
      LooseNumberConverts(ms[k].number);
    }
    FilterMapTotal(MatchItem, ms);
    var r := FilterMap(MatchItem, ms);
    forall k | 0 <= k < |ms|
      ensures r[k].description == Strip(ms[k].caption) && ExtractAmount(ms[k].number) == Some(r[k].amount)
    {
      MatchItemOf(ms[k], r[k]);
    }
  }

  lemma MatchItemOf(m: LabelMatch, it: Item)
    requires MatchItem(m) == Some(it)
    ensures it.description == Strip(m.caption) && ExtractAmount(m.number) == Some(it.amount)
  {
  }

  /** The items of one paragraph: its stripped text, when not empty, searched
      for every "label: amount" phrase. */
  function ParagraphItems(paragraph: string): seq<Item> {
    var text := Strip(paragraph);
    if text == [] then [] else FilterMap(MatchItem, FindLabelled(text, 0))
  }

  /** Every "label: amount" phrase of a paragraph becomes an item, in order:
      its stripped label and its amount. */
  lemma ParagraphItemsAll(paragraph: string)
    ensures var text := Strip(paragraph);
      var ms := if text == [] then [] else FindLabelled(text, 0);
      && |ParagraphItems(paragraph)| == |ms|
      && forall k :: 0 <= k < |ms| ==>
        ParagraphItems(paragraph)[k].description == Strip(ms[k].caption)
        && ExtractAmount(ms[k].number) == Some(ParagraphItems(paragraph)[k].amount)
  {
    var text := Strip(paragraph);
    if text != [] {
      FindLabelledShape(text, 0);
      MatchItemsAll(FindLabelled(text, 0));
    }
  }

  /** The items of all paragraphs, in order. */
  function AllParagraphItems(paragraphs: seq<string>): seq<Item> {
    if paragraphs == [] then [] else ParagraphItems(paragraphs[0]) + AllParagraphItems(paragraphs[1..])
  }

  /** The paragraph the fallback is documented with. */
  lemma ParagraphExample()
    ensures ParagraphItems("Coffee: 3,50 €") == [Item("Coffee", 3.5)]
  {
    var s := "Coffee: 3,50 €";
    ExampleStrip(s);
    ExampleScan(s);
    ExampleAmount();
    assert MatchItem(LabelMatch("Coffee", "3,50")) == Some(Item("Coffee", 3.5));
    assert FilterMap(MatchItem, [LabelMatch("Coffee", "3,50")]) == [Item("Coffee", 3.5)];
  }

  lemma ExampleStrip(s: string)
    requires s == "Coffee: 3,50 €"
    ensures Strip(s) == s && Strip("Coffee") == "Coffee"
  {
    assert !IsSpace(s[0]) && !IsSpace(s[|s| - 1]);
    assert TrimStart(s) == s;
    assert TrimEnd(s) == s;
    assert TrimStart("Coffee") == "Coffee";
    assert TrimEnd("Coffee") == "Coffee";
  }

  lemma ExampleScan(s: string)
    requires s == "Coffee: 3,50 €"
    ensures FindLabelled(s, 0) == [LabelMatch("Coffee", "3,50")]
  {
    ExampleStep(s);
    assert SearchStep(s, |s|) == Done;
  }

  lemma ExampleStep(s: string)
    requires s == "Coffee: 3,50 €"
    ensures SearchStep(s, 0) == Found(LabelMatch("Coffee", "3,50"), |s|)
  {
    assert s[0..6] == "Coffee" && s[8..12] == "3,50";
    FindCharTo(s, 0, ':', 6);
    assert s[7..8] == " ";
    SkipSpacesTo(s, 7, 8);
    ExampleNumberEnd(s);
    assert s[12..13] == " ";
    SkipSpacesTo(s, 12, 13);
  }

  lemma ExampleNumberEnd(s: string)
    requires s == "Coffee: 3,50 €"
    ensures LooseNumberEnd(s, 8) == Some(12)
  {
    assert s[8..9] == "3";
    SkipDigitsTo(s, 8, 9);
    assert s[10..12] == "50";
    SkipDigitsTo(s, 10, 12);
  }

  lemma ExampleAmount()
    ensures ExtractAmount("3,50") == Some(3.5)
  {
    var n := Numeral(false, "3", true, "50");
    ExampleAmountText(n);
    ExampleAmountValue(n);
    ExtractSpelled("3,50", n);
  }

  lemma ExampleAmountText(n: Numeral)
    requires n == Numeral(false, "3", true, "50")
    ensures WellFormed(n) && Normalize("3,50") == Spell(n)
  {
    KeepClean("3,50");
    assert "3,50" == "3" + ("," + "50");
    ReplaceAbsent("3", ',', '.');
    ReplaceAbsent("50", ',', '.');
    ReplaceAppend("3", "," + "50", ',', '.');
    ReplaceAppend(",", "50", ',', '.');
    assert ReplaceChar(",", ',', '.') == ".";
    assert Spell(n) == "" + ("3" + ("." + "50"));
  }

  lemma ExampleAmountValue(n: Numeral)
    requires n == Numeral(false, "3", true, "50")
    ensures WellFormed(n) && Value(n) == 3.5
  {
    assert DigitsValue("50") == 50 by {
      assert "50"[..1] == "5";
    }
    assert DigitsValue("3") == 3;
    assert Pow10(2) == 100;
    NumeralValue(n, 3, 50, 100);
  }

  /** `extract_data_from_word`: the table items; only when the tables yield
      none at all are the paragraphs scanned instead. */
  function ExtractData(doc: Document): (items: seq<Item>)
    ensures HasTableItem(doc.tables) ==> items == TableItems(doc.tables) && items != []
    ensures !HasTableItem(doc.tables) ==> items == AllParagraphItems(doc.paragraphs)
  {
    TableItemsEmpty(doc.tables);
    var fromTables := TableItems(doc.tables);
    if |fromTables| == 0 then AllParagraphItems(doc.paragraphs) else fromTables
  }

  /** `f"{amount:.2f}".replace('.', ',')`. */
  function AmountText(amount: real): string {
    ReplaceChar(Fixed2(amount), '.', ',')
  }

  /** The amount written in a line is read back by `extract_amount` as the
      amount rounded to cents. */
  lemma AmountTextReadsBack(amount: real)
    ensures ExtractAmount(AmountText(amount)) == Some(Round2(amount))
  {
    ExtractNumeral(Fixed2Numeral(amount));
  }

  /** `f"{description} | {amount_str}"`. */
  function ItemLine(it: Item): string {
    it.description + " | " + AmountText(it.amount)
  }

  /** The comment block the file starts with. */
  function Preamble(created: string, source: string): seq<string> {
    [ "# Položky pre import do aplikácie Blocky",
      "# Vytvorené: " + created,
      "# Zdrojový súbor: " + source,
      "#",
      "# Formát: Popis | Suma",
      "# Záporné sumy sú označené znamienkom mínus (-)",
      "#" ]
  }

  /** The summary: the total with a period decimal, and the item count. */
  function Footer(total: real, count: nat): seq<string> {
    [ "#",
      "# Celková suma: " + Fixed2(total),
      "# Počet položiek: " + NatToString(count) ]
  }

  /** The exact sum of the amounts. */
  function Sum(items: seq<Item>): real {
    if items == [] then 0.0 else Sum(items[..|items| - 1]) + items[|items| - 1].amount
  }

  /** One more item adds its amount to the sum. */
  lemma SumStep(items: seq<Item>, i: nat)
    requires i < |items|
    ensures Sum(items[..i + 1]) == Sum(items[..i]) + items[i].amount
  {
    assert items[..i + 1][..i] == items[..i];
  }

  /** The loop of `save_to_text_file`: one line per item, in order, and the
      running total of the amounts. */
  method WriteItems(items: seq<Item>) returns (body: seq<string>, total: real)
    ensures |body| == |items|
    ensures forall j :: 0 <= j < |items| ==> body[j] == ItemLine(items[j])
    ensures total == Sum(items)
  {
    body := [];
    total := 0.0;
    var i := 0;
    while i < |items|
      invariant 0 <= i <= |items|
      invariant body == Map(ItemLine, items[..i])
      invariant total == Sum(items[..i])
    {
      SumStep(items, i);
      assert items[..i + 1] == items[..i] + [items[i]];
      MapAppend(ItemLine, items[..i], items[i]);
      total := total + items[i].amount;
      body := body + [ItemLine(items[i])];
      i := i + 1;
    }
    assert items[..i] == items;
    MapAt(ItemLine, items);
  }

  /** `save_to_text_file`: the lines written, each without its newline. One
      line per item, in order, between the comment block and the footer;
      the footer carries the sum of all amounts and the number of items. */
  method SaveToTextFile(items: seq<Item>, created: string, source: string) returns (lines: seq<string>)
    ensures |lines| == 7 + |items| + 3
    ensures lines[..7] == Preamble(created, source)
    ensures forall j :: 0 <= j < |items| ==> lines[7 + j] == ItemLine(items[j])
    ensures lines[7 + |items|..] == Footer(Sum(items), |items|)
  {
    var body, total := WriteItems(items);
    var pre := Preamble(created, source);
    lines := pre + body + Footer(total, |items|);
    assert lines[..7] == pre;
    assert lines[7 + |items|..] == Footer(total, |items|);
  }

  /** `main` after its argument checks: nothing is written when extraction
      finds no item; otherwise the file's lines. */
  method Convert(doc: Document, created: string, source: string) returns (output: Option<seq<string>>)
    ensures output.None? <==> !HasTableItem(doc.tables) && AllParagraphItems(doc.paragraphs) == []
    ensures output.Some? ==>
      var items := ExtractData(doc);
      && |output.value| == 10 + |items|
      && output.value[..7] == Preamble(created, source)
      && (forall j :: 0 <= j < |items| ==> output.value[7 + j] == ItemLine(items[j]))
      && output.value[7 + |items|..] == Footer(Sum(items), |items|)
  {
    var items := ExtractData(doc);
    if |items| == 0 {
      output := None;
    } else {
      var lines := SaveToTextFile(items, created, source);
      output := Some(lines);
    }
  }
}
