/** The optional value every parser here returns. */
module Optional {

  datatype Option<+T> = None | Some(value: T)
}

/**
 Decimal numerals and their exact values.

 Every amount in the converters is a decimal string read by a number parser
 (Python's `float`, Kotlin's `toDouble`) or written by a fixed-point format
 (`f"{x:.2f}"`). This module reads and writes such numerals exactly: a
 numeral's value is a `real`, not an IEEE double.
 */
module Decimal {
  import opened Text
  import opened Optional

  /** A numeral `-?W(.F)?`, kept as its parts so that it can be written back. */
  datatype Numeral = Numeral(negative: bool, whole: string, point: bool, fraction: string)

  /** The language `-?(\d+(\.\d*)?|\.\d+)`: the strings Python's `float`
      accepts when they contain nothing but digits, `-` and `.`. */
  predicate WellFormed(n: Numeral) {
    && AllDigits(n.whole)
    && AllDigits(n.fraction)
    && (n.point || n.fraction == [])
    && (|n.whole| > 0 || |n.fraction| > 0)
  }

  /** The text of a numeral. */
  function Spell(n: Numeral): string {
    (if n.negative then "-" else "") + (n.whole + ((if n.point then "." else "") + n.fraction))
  }

  /** `s` is the text of some well-formed numeral. */
  ghost predicate IsNumeralText(s: string) {
    exists n :: WellFormed(n) && Spell(n) == s
  }

  function DigitValue(c: char): nat
    requires IsDigit(c)
  {
    c as int - '0' as int
  }

  /** The digit character for `d`. */
  function Digit(d: nat): (c: char)
    requires d < 10
    ensures IsDigit(c) && DigitValue(c) == d
  {
    ('0' as int + d) as char
  }

  /** The natural number a string of digits denotes. */
  function DigitsValue(s: string): nat
    requires AllDigits(s)
  {
    if s == [] then 0 else DigitsValue(s[..|s| - 1]) * 10 + DigitValue(s[|s| - 1])
  }

  function Pow10(k: nat): (p: nat)
    ensures p >= 1
  {
    if k == 0 then 1 else 10 * Pow10(k - 1)
  }

  /** The exact value of a well-formed numeral. */
  function Value(n: Numeral): real
    requires WellFormed(n)
  {
    var magnitude := DigitsValue(n.whole) as real
      + DigitsValue(n.fraction) as real / Pow10(|n.fraction|) as real;
    if n.negative then -magnitude else magnitude
  }

  /** The length of the longest run of digits at the start of `s`. */
  function DigitRun(s: string): (k: nat)
    ensures k <= |s| && AllDigits(s[..k])
    ensures k == |s| || !IsDigit(s[k])
  {
    if |s| > 0 && IsDigit(s[0]) then
      var k := 1 + DigitRun(s[1..]);
      assert forall i :: 1 <= i < k ==> s[..k][i] == s[1..][..k - 1][i - 1];
      k
    else
      0
  }

  /** A digit run ends where the digits end, whatever follows them. */
  lemma {:induction false} DigitRunOfDigits(w: string, rest: string)
    requires AllDigits(w)
    requires rest == [] || !IsDigit(rest[0])
    ensures DigitRun(w + rest) == |w|
  {
    if w != [] {
      assert (w + rest)[1..] == w[1..] + rest;
      DigitRunOfDigits(w[1..], rest);
    }
  }

  /** Reads a numeral of the language `WellFormed` describes; `None` for any
      other string. Whatever it accepts it reads back exactly. */
  function Parse(s: string): (r: Option<Numeral>)
    ensures r.Some? ==> WellFormed(r.value) && Spell(r.value) == s
  {
    var negative := |s| > 0 && s[0] == '-';
    var body := if negative then s[1..] else s;
    var k := DigitRun(body);
    var rest := body[k..];
    if rest == [] then
      if k > 0 then
        SpellsBack(s, negative, body, body[..k], false, []);
        Some(Numeral(negative, body[..k], false, []))
      else None
    else if rest[0] == '.' && AllDigits(rest[1..]) && (k > 0 || |rest| > 1) then
      SpellsBack(s, negative, body, body[..k], true, rest[1..]);
      Some(Numeral(negative, body[..k], true, rest[1..]))
    else
      None
  }

  /** The parts `Parse` cuts a text into spell the text again. */
  lemma SpellsBack(s: string, negative: bool, body: string, w: string, point: bool, f: string)
    requires negative <==> |s| > 0 && s[0] == '-'
    requires body == if negative then s[1..] else s
    requires w <= body && body[|w|..] == (if point then "." else "") + f
    ensures Spell(Numeral(negative, w, point, f)) == s
  {
    assert body == w + body[|w|..];
    if negative {
      assert s == "-" + body;
    }
  }

  /** Every well-formed numeral is read back from its own text. */
  lemma ParseSpell(n: Numeral)
    requires WellFormed(n)
    ensures Parse(Spell(n)) == Some(n)
  {
    var s := Spell(n);
    var tail := (if n.point then "." else "") + n.fraction;
    var body := n.whole + tail;
    SpellSign(n);
    DigitRunOfDigits(n.whole, tail);
    assert body[..|n.whole|] == n.whole;
    assert body[|n.whole|..] == tail;
    if n.point {
      assert tail[0] == '.' && tail[1..] == n.fraction;
    }
  }

  /** A numeral's text starts with a minus exactly when it is negative, and
      after the minus come the digits, the point and the fraction. */
  lemma SpellSign(n: Numeral)
    requires WellFormed(n)
    ensures var s := Spell(n);
      && ((|s| > 0 && s[0] == '-') <==> n.negative)
      && (if n.negative then s[1..] else s) == n.whole + ((if n.point then "." else "") + n.fraction)
  {
    var s := Spell(n);
    var body := n.whole + ((if n.point then "." else "") + n.fraction);
    if n.negative {
      assert s == "-" + body;
      assert s[1..] == body;
    } else {
      assert s == body;
      if |n.whole| > 0 {
        assert s[0] == n.whole[0];
      } else if n.point {
        assert s[0] == '.';
      }
    }
  }

  /** A numeral's text is made of digits, a minus and a point only. */
  lemma NumeralChars(n: Numeral)
    requires WellFormed(n)
    ensures forall i :: 0 <= i < |Spell(n)| ==> IsDigit(Spell(n)[i]) || Spell(n)[i] == '-' || Spell(n)[i] == '.'
  {
    var sign := if n.negative then "-" else "";
    var pt := if n.point then "." else "";
    var s := Spell(n);
    assert s == sign + n.whole + pt + n.fraction;
    forall i | 0 <= i < |s|
      ensures IsDigit(s[i]) || s[i] == '-' || s[i] == '.'
    {
      if |sign| <= i < |sign| + |n.whole| {
        assert s[i] == n.whole[i - |sign|];
      } else if i >= |sign| + |n.whole| + |pt| {
        assert s[i] == n.fraction[i - |sign| - |n.whole| - |pt|];
      }
    }
  }

  /** A numeral's text has no comma. */
  lemma NumeralLacksComma(n: Numeral)
    requires WellFormed(n)
    ensures Lacks(Spell(n), ',')
  {
    NumeralChars(n);
  }

  /** `Parse` accepts exactly the texts of well-formed numerals. */
  lemma ParseAccepts(s: string)
    ensures Parse(s).Some? <==> IsNumeralText(s)
  {
    if IsNumeralText(s) {
      var n :| WellFormed(n) && Spell(n) == s;
      ParseSpell(n);
    }
  }

  /** A text spells at most one numeral, and `Parse` finds it. */
  lemma SpellUnique(s: string)
    ensures forall n :: WellFormed(n) && Spell(n) == s ==> Parse(s) == Some(n)
  {
    forall n | WellFormed(n) && Spell(n) == s
      ensures Parse(s) == Some(n)
    {
      ParseSpell(n);
    }
  }

  /** `float(s)` on a text of digits, signs and points: the exact value of
      the numeral `s` spells, `None` where `float` raises `ValueError`. */
  function ReadFloat(s: string): Option<real> {
    match Parse(s)
    case None => None
    case Some(n) => Some(Value(n))
  }

  /** No two points in `s`. */
  predicate AtMostOnePoint(s: string) {
    forall i, j :: 0 <= i < j < |s| && s[i] == '.' ==> s[j] != '.'
  }

  /** A numeral's text has a point only between its whole and fraction parts. */
  lemma SpellOnePoint(n: Numeral)
    requires WellFormed(n)
    ensures AtMostOnePoint(Spell(n))
  {
    var sign := if n.negative then "-" else "";
    var pt := if n.point then "." else "";
    var s := Spell(n);
    assert s == sign + n.whole + pt + n.fraction;
    forall i | 0 <= i < |s|
      ensures s[i] == '.' ==> i == |sign| + |n.whole|
    {
      if i < |sign| {
      } else if i < |sign| + |n.whole| {
        assert s[i] == n.whole[i - |sign|];
      } else if i >= |sign| + |n.whole| + |pt| {
        assert s[i] == n.fraction[i - |sign| - |n.whole| - |pt|];
      }
    }
  }

  /** `Parse` rejects every text with two points. */
  lemma ParseOnePoint(s: string)
    requires !AtMostOnePoint(s)
    ensures Parse(s) == None
  {
    if Parse(s).Some? {
      SpellOnePoint(Parse(s).value);
    }
  }

  /** `str(n)` for a natural number: its decimal digits, without leading zeros. */
  function NatToString(n: nat): (r: string)
    ensures |r| >= 1 && AllDigits(r)
    ensures DigitsValue(r) == n
    ensures |r| > 1 ==> r[0] != '0'
  {
    if n < 10 then
      [Digit(n)]
    else
      var r := NatToString(n / 10) + [Digit(n % 10)];
      assert r[..|r| - 1] == NatToString(n / 10);
      r
  }

  /** The integer nearest to `y`, ties going to the even neighbour. */
  function RoundHalfEven(y: real): (r: int)
    ensures -0.5 <= r as real - y <= 0.5
    ensures (r as real - y == 0.5 || y - r as real == 0.5) ==> r % 2 == 0
  {
    var f := y.Floor;
    var d := y - f as real;
    if d < 0.5 then f
    else if d > 0.5 then f + 1
    else if f % 2 == 0 then f
    else f + 1
  }

  /** `x` rounded to a whole number of hundredths, ties to even. */
  function Round2(x: real): (r: real)
    ensures (r * 100.0).Floor as real == r * 100.0
    ensures -0.005 <= r - x <= 0.005
  {
    var c := RoundHalfEven(x * 100.0);
    var r := c as real / 100.0;
    assert r * 100.0 == c as real;
    assert (c as real).Floor == c;
    assert r - x == (c as real - x * 100.0) / 100.0;
    r
  }

  /** The numeral `f"{x:.2f}"` writes: a sign when `x` is negative (Python
      keeps it even when the rounded value is zero), the whole part without
      leading zeros, a point and exactly two fraction digits. */
  function Fixed2Numeral(x: real): (n: Numeral)
    ensures WellFormed(n)
    ensures n.negative <==> x < 0.0
    ensures |n.whole| >= 1 && (|n.whole| > 1 ==> n.whole[0] != '0')
    ensures n.point && |n.fraction| == 2
    ensures Value(n) == Round2(x)
  {
    var c := RoundHalfEven(x * 100.0);
    var a: nat := if c < 0 then -c else c;
    var whole := NatToString(a / 100);
    var fraction := [Digit(a % 100 / 10), Digit(a % 10)];
    TwoDigits(a);
    var n := Numeral(x < 0.0, whole, true, fraction);
    assert x < 0.0 ==> c <= 0;
    assert x >= 0.0 ==> c >= 0;
    FractionValue(a);
    assert Pow10(|fraction|) == 100;
    var magnitude := DigitsValue(whole) as real + DigitsValue(fraction) as real / 100.0;
    assert magnitude == a as real / 100.0;
    assert Value(n) == if x < 0.0 then -magnitude else magnitude;
    assert Round2(x) == c as real / 100.0;
    n
  }

  /** The last two digits of `a`, written out, denote `a % 100`. */
  lemma TwoDigits(a: nat)
    ensures DigitsValue([Digit(a % 100 / 10), Digit(a % 10)]) == a % 100
  {
    var hi, lo := a % 100 / 10, a % 10;
    var f := [Digit(hi), Digit(lo)];
    assert f[..1] == [Digit(hi)];
    assert DigitsValue(f[..1]) == hi by {
      assert f[..1][..0] == [];
    }
    assert DigitsValue(f) == hi * 10 + lo;
    assert a == a / 100 * 100 + a % 100;
    assert a % 100 == hi * 10 + a % 100 % 10;
    assert a % 100 % 10 == lo by {
      assert a == (a / 100 * 10) * 10 + a % 100;
    }
  }

  /** A whole number of hundredths splits into whole part and cents exactly. */
  lemma FractionValue(a: nat)
    ensures (a / 100) as real + (a % 100) as real / 100.0 == a as real / 100.0
  {
    var q := a / 100;
    var m := a % 100;
    assert a == q * 100 + m;
    assert a as real == q as real * 100.0 + m as real;
  }

  /** `f"{x:.2f}"`. */
  function Fixed2(x: real): string {
    Spell(Fixed2Numeral(x))
  }

  /** What `.2f` writes reads back as the amount rounded to cents. */
  lemma Fixed2Reads(x: real)
    ensures Parse(Fixed2(x)) == Some(Fixed2Numeral(x))
    ensures Value(Parse(Fixed2(x)).value) == Round2(x)
  {
    ParseSpell(Fixed2Numeral(x));
  }
}
