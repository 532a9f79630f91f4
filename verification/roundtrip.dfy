/**
 The importer and the folder export work on the same receipt files: a file
 the Excel import writes is listed by the export with the description and the
 amount it was written with.
 */
module RoundTrip {
  import opened Text
  import opened Optional
  import opened Decimal
  import opened Scan
  import opened ExportToWord
  import opened ImportExcel

  /** A time stamp as `yyyy-MM-dd_HH-mm-ss` writes it. */
  predicate StampText(stamp: string) {
    |stamp| + 1 == |StampShape| && StampAt(stamp + "_", 0)
  }

  /** A numeral as `Double.toString` writes an amount of moderate size:
      digits on both sides of a point. */
  predicate PlainNumeral(n: Numeral) {
    WellFormed(n) && |n.whole| > 0 && n.point && |n.fraction| > 0
  }

  /** A description the export can give back: not blank, on one line, and
      without the underscores and `€` the file name is parsed by, and not one
      of the names the export drops. */
  predicate Describable(d: string) {
    && !IsBlank(d)
    && Lacks(d, '_') && Lacks(d, '€')
    && (forall i :: 0 <= i < |d| ==> !IsLineBreak(d[i]))
    && d != "manual" && d != "receipt"
  }

  /** A character the amount pattern `-?\d+[.,]\d+` is made of. */
  predicate AmountChar(c: char) {
    IsDigit(c) || IsSep(c) || c == '-'
  }

  /** Every character of a match of the amount pattern, up to its `€`, is an
      amount character. */
  lemma AmountAtChars(s: string, p: nat)
    requires p <= |s| && AmountAt(s, p).Some?
    ensures forall i :: p <= i < AmountAt(s, p).value ==> AmountChar(s[i])
  {
    var a := if p < |s| && s[p] == '-' then p + 1 else p;
    var b := SkipDigits(s, a);
    SkipDigitsAll(s, a);
    SkipDigitsAll(s, b + 1);
    forall i | p <= i < AmountAt(s, p).value
      ensures AmountChar(s[i])
    {
      if a <= i < b {
        assert s[i] == s[a..b][i - a];
      } else if b < i {
        assert s[i] == s[b + 1..AmountAt(s, p).value][i - b - 1];
      }
    }
  }

  /** A plain numeral is an amount as the export's pattern accepts it. */
  lemma PlainNumeralStrict(n: Numeral)
    requires PlainNumeral(n)
    ensures StrictAmount(Spell(n))
  {
    var rest := "." + n.fraction;
    var body := n.whole + rest;
    StrictShape(n.whole, rest);
    assert rest[1..] == n.fraction;
    var t := Spell(n);
    if n.negative {
      assert t == "-" + body && t[1..] == body;
    } else {
      assert t == body && t[0] == n.whole[0];
    }
  }

  /** Where the parts of an imported file's name lie: the stamp and `_` end at
      `|stamp| + 1`, the description part at `m`, the `_` before the amount is
      at `m`, and the amount ends at `e`, where the `€` is. */
  lemma NameLayout(stamp: string, d: string, n: Numeral, show: real -> string)
    requires !IsBlank(d) && WellFormed(n) && show(Value(n)) == Spell(n)
    ensures var r := FileName(stamp, d, Value(n), show);
      var m := |stamp| + 1 + |d|;
      var e := m + 1 + |Spell(n)|;
      && |r| == e + 5
      && r[..|stamp| + 1] == stamp + "_"
      && r[|stamp| + 1..m] == ReplaceChar(d, ' ', '_')
      && r[m] == '_'
      && r[m + 1..e] == Spell(n)
      && r[e] == '€'
      && r[e + 1..] == ".txt"
  {
    var r := FileName(stamp, d, Value(n), show);
    FileNameParts(stamp, d, Value(n), show);
    var e := |stamp| + 1 + |d| + 1 + |Spell(n)|;
    assert r[e..] == "€.txt";
    assert r[e] == r[e..][0];
    assert r[e + 1..] == r[e..][1..];
  }

  /** Classifies the characters of an imported file's name: none before the
      amount's end is a `€`, none after the stamp is a line break, and none
      after the `_` at `m` is an underscore. */
  lemma NameChars(stamp: string, d: string, n: Numeral, show: real -> string)
    requires StampText(stamp) && Describable(d) && PlainNumeral(n)
    requires show(Value(n)) == Spell(n)
    ensures var r := FileName(stamp, d, Value(n), show);
      var m := |stamp| + 1 + |d|;
      var e := m + 1 + |Spell(n)|;
      && (forall i :: 0 <= i < |r| && i != e ==> r[i] != '€')
      && (forall i :: |stamp| + 1 <= i < |r| ==> !IsLineBreak(r[i]))
      && (forall i :: m < i < |r| ==> r[i] != '_')
  {
    var r := FileName(stamp, d, Value(n), show);
    var m := |stamp| + 1 + |d|;
    var e := m + 1 + |Spell(n)|;
    NameLayout(stamp, d, n, show);
    NumeralChars(n);
    ReplaceCharAt(d, ' ', '_');
    forall i | 0 <= i < |r|
      ensures i != e ==> r[i] != '€'
      ensures |stamp| + 1 <= i ==> !IsLineBreak(r[i])
      ensures m < i ==> r[i] != '_'
    {
      if i < |stamp| + 1 {
        assert r[i] == (stamp + "_")[i];
        assert StampShape[i] == 'd' || StampShape[i] == '-' || StampShape[i] == '_';
      } else if i < m {
        assert r[i] == ReplaceChar(d, ' ', '_')[i - |stamp| - 1];
      } else if m < i < e {
        assert r[i] == Spell(n)[i - m - 1];
      } else if e < i {
        assert r[i] == ".txt"[i - e - 1];
      }
    }
  }

  /** In a name whose only `€` is at `e`, an amount that ends there and starts
      right after an underscore is the leftmost one. */
  lemma LeftmostAmount(r: string, m: nat, e: nat)
    requires m < e < |r| && r[m] == '_' && AmountAt(r, m + 1) == Some(e)
    requires forall i :: 0 <= i < |r| && i != e ==> r[i] != '€'
    ensures FindAmount(r, 0) == Some((m + 1, e))
  {
    forall q | 0 <= q <= m
      ensures AmountAt(r, q).None?
    {
      if AmountAt(r, q).Some? {
        AmountAtChars(r, q);
        assert false;
      }
    }
    FindAmountSpec(r, 0);
  }

  /** `LastCut` finds a cut that has no other cut after it. */
  lemma LastCutIs(s: string, q: nat, k: nat, c: nat)
    requires k <= |s| && c < k && Cut(s, q, c)
    requires forall c' :: c < c' < k ==> !Cut(s, q, c')
    ensures LastCut(s, q, k) == Some(c)
  {
    LastCutSpec(s, q, k);
  }

  /** Nothing from `p` on is a line break: `.+` reaches the end. */
  lemma {:induction false} LineEndAll(s: string, p: nat)
    requires p <= |s|
    requires forall i :: p <= i < |s| ==> !IsLineBreak(s[i])
    ensures LineEnd(s, p) == |s|
    decreases |s| - p
  {
    if p < |s| {
      LineEndAll(s, p + 1);
    }
  }

  /** In a name that starts with a time stamp and has no line break after
      it, the description ends at the last underscore that an amount and `€`
      follow. */
  lemma DescriptionOfName(r: string, m: nat)
    requires StampAt(r, 0) && |StampShape| < m < |r|
    requires r[m] == '_' && AmountAt(r, m + 1).Some?
    requires forall i :: |StampShape| <= i < |r| ==> !IsLineBreak(r[i])
    requires forall i :: m < i < |r| ==> r[i] != '_'
    ensures DescriptionAt(r, 0) == Some(r[|StampShape|..m])
  {
    var q := |StampShape|;
    LineEndAll(r, q);
    LastCutIs(r, q, |r|, m);
  }

  /** A time stamp at the start of a text stays one when more text follows. */
  lemma StampPrefix(t: string, r: string)
    requires StampAt(t, 0) && |t| == |StampShape| && |t| <= |r| && r[..|t|] == t
    ensures StampAt(r, 0)
  {
    forall i | 0 <= i < |StampShape|
      ensures if StampShape[i] == 'd' then IsDigit(r[i]) else r[i] == StampShape[i]
    {
      assert r[i] == t[i];
    }
  }

  /** The shape of an imported file's name that the export relies on: the
      stamp and `_`, the description part, `_`, the amount and `€`, then
      `.txt`; no other `€`, no line break after the stamp, and no underscore
      after the one before the amount. */
  predicate Shaped(r: string, stamp: string, d: string, n: Numeral) {
    var q := |stamp| + 1;
    var m := q + |d|;
    var e := m + 1 + |Spell(n)|;
    && |r| == e + 5
    && r[..q] == stamp + "_"
    && r[q..m] == ReplaceChar(d, ' ', '_')
    && r[m] == '_'
    && r[m + 1..e] == Spell(n)
    && r[e] == '€'
    && (forall i :: 0 <= i < |r| && i != e ==> r[i] != '€')
    && (forall i :: q <= i < |r| ==> !IsLineBreak(r[i]))
    && (forall i :: m < i < |r| ==> r[i] != '_')
  }

  /** Every name the importer writes has that shape. */
  lemma NameShaped(stamp: string, d: string, n: Numeral, show: real -> string)
    requires StampText(stamp) && Describable(d) && PlainNumeral(n)
    requires show(Value(n)) == Spell(n)
    ensures Shaped(FileName(stamp, d, Value(n), show), stamp, d, n)
  {
    NameLayout(stamp, d, n, show);
    NameChars(stamp, d, n, show);
  }

  /** The export reads the description back from a name of that shape. */
  lemma ShapedDescription(r: string, stamp: string, d: string, n: Numeral)
    requires StampText(stamp) && Describable(d) && PlainNumeral(n)
    requires Shaped(r, stamp, d, n)
    ensures Describe(r) == d
  {
    var q := |stamp| + 1;
    var m := q + |d|;
    PlainNumeralStrict(n);
    AmountAtComplete(r, m + 1, m + 1 + |Spell(n)|);
    StampPrefix(stamp + "_", r);
    assert d != [];
    DescriptionOfName(r, m);
    ReplaceRoundTrip(d, ' ', '_');
  }

  /** A text with a `€` somewhere contains `€`. */
  lemma EuroAt(r: string, e: nat)
    requires e < |r| && r[e] == '€'
    ensures Contains(r, "€")
  {
    assert r[e..e + 1] == "€";
    ContainsAt(r, "€", e);
  }

  /** In a name of that shape the export finds the `€`, and the leftmost
      amount is the one written, read as its value. */
  lemma ShapedAmount(r: string, stamp: string, d: string, n: Numeral)
    requires PlainNumeral(n) && Shaped(r, stamp, d, n)
    ensures Contains(r, "€")
    ensures FindAmount(r, 0) == Some((|stamp| + 2 + |d|, |stamp| + 2 + |d| + |Spell(n)|))
    ensures ReadFloat(ReplaceChar(r[|stamp| + 2 + |d|..|stamp| + 2 + |d| + |Spell(n)|], ',', '.')) == Some(Value(n))
  {
    var m := |stamp| + 1 + |d|;
    var e := m + 1 + |Spell(n)|;
    PlainNumeralStrict(n);
    AmountAtComplete(r, m + 1, e);
    LeftmostAmount(r, m, e);
    EuroAt(r, e);
    NumeralLacksComma(n);
    ReplaceAbsent(Spell(n), ',', '.');
    ParseSpell(n);
  }

  /** The export reads the item back from a name of that shape. */
  lemma ShapedItem(r: string, stamp: string, d: string, n: Numeral)
    requires StampText(stamp) && Describable(d) && PlainNumeral(n)
    requires Shaped(r, stamp, d, n)
    ensures ItemOf(Entry(r, false)) == Some((d, Value(n)))
  {
    ShapedAmount(r, stamp, d, n);
    ShapedDescription(r, stamp, d, n);
  }

  /** A file the Excel import writes, listed by the folder export, yields the
      item it was written for: its description and its amount. */
  lemma ImportedFileExports(stamp: string, d: string, n: Numeral, show: real -> string)
    requires StampText(stamp) && Describable(d) && PlainNumeral(n)
    requires show(Value(n)) == Spell(n)
    ensures ItemOf(Entry(FileName(stamp, d, Value(n), show), false)) == Some((d, Value(n)))
  {
    NameShaped(stamp, d, n, show);
    ShapedItem(FileName(stamp, d, Value(n), show), stamp, d, n);
  }
}
