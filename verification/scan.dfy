/**
 Index-based scanners over a string, from which the regular expressions of the
 converters are built. A position `p` is an index into `s` with `p <= |s|`;
 every scanner returns the position where its piece of the pattern ends.
 */
module Scan {
  import opened Text
  import opened Optional
  import opened Decimal

  /** A decimal separator as the amount patterns accept it: `[.,]`. */
  predicate IsSep(c: char) {
    c == '.' || c == ','
  }

  /** The first position at or after `p` that does not hold a digit (`\d*`). */
  function SkipDigits(s: string, p: nat): (q: nat)
    requires p <= |s|
    ensures p <= q <= |s|
    ensures q == |s| || !IsDigit(s[q])
    decreases |s| - p
  {
    if p < |s| && IsDigit(s[p]) then SkipDigits(s, p + 1) else p
  }

  /** `SkipDigits` stops at the first non-digit: any digit run followed by a
      non-digit or the end is what it skips. */
  lemma {:induction false} SkipDigitsTo(s: string, p: nat, q: nat)
    requires p <= q <= |s| && AllDigits(s[p..q]) && (q == |s| || !IsDigit(s[q]))
    ensures SkipDigits(s, p) == q
    decreases q - p
  {
    if p < q {
      assert s[p..q][0] == s[p];
      assert s[p + 1..q] == s[p..q][1..];
      SkipDigitsTo(s, p + 1, q);
    }
  }

  /** Everything `SkipDigits` skips is a digit. */
  lemma {:induction false} SkipDigitsAll(s: string, p: nat)
    requires p <= |s|
    ensures AllDigits(s[p..SkipDigits(s, p)])
    decreases |s| - p
  {
    if p < |s| && IsDigit(s[p]) {
      SkipDigitsAll(s, p + 1);
      assert s[p..SkipDigits(s, p)] == [s[p]] + s[p + 1..SkipDigits(s, p + 1)];
    }
  }

  /** The first position at or after `p` that does not hold white space (`\s*`). */
  function SkipSpaces(s: string, p: nat): (q: nat)
    requires p <= |s|
    ensures p <= q <= |s|
    ensures q == |s| || !IsSpace(s[q])
    decreases |s| - p
  {
    if p < |s| && IsSpace(s[p]) then SkipSpaces(s, p + 1) else p
  }

  /** `SkipSpaces` stops at the first character that is not white space. */
  lemma {:induction false} SkipSpacesTo(s: string, p: nat, q: nat)
    requires p <= q <= |s| && AllSpace(s[p..q]) && (q == |s| || !IsSpace(s[q]))
    ensures SkipSpaces(s, p) == q
    decreases q - p
  {
    if p < q {
      assert s[p..q][0] == s[p];
      assert s[p + 1..q] == s[p..q][1..];
      SkipSpacesTo(s, p + 1, q);
    }
  }

  /** Everything `SkipSpaces` skips is white space. */
  lemma {:induction false} SkipSpacesAll(s: string, p: nat)
    requires p <= |s|
    ensures AllSpace(s[p..SkipSpaces(s, p)])
    decreases |s| - p
  {
    if p < |s| && IsSpace(s[p]) {
      SkipSpacesAll(s, p + 1);
      assert s[p..SkipSpaces(s, p)] == [s[p]] + s[p + 1..SkipSpaces(s, p + 1)];
    }
  }

  /** The first position at or after `p` holding `c`, or `|s|` when there is none. */
  function FindChar(s: string, p: nat, c: char): (q: nat)
    requires p <= |s|
    ensures p <= q <= |s|
    ensures q == |s| || s[q] == c
    decreases |s| - p
  {
    if p < |s| && s[p] != c then FindChar(s, p + 1, c) else p
  }

  /** `FindChar` finds the first occurrence of `c`. */
  lemma {:induction false} FindCharTo(s: string, p: nat, c: char, q: nat)
    requires p <= q <= |s| && Lacks(s[p..q], c) && (q == |s| || s[q] == c)
    ensures FindChar(s, p, c) == q
    decreases q - p
  {
    if p < q {
      assert s[p..q][0] == s[p];
      assert s[p + 1..q] == s[p..q][1..];
      FindCharTo(s, p + 1, c, q);
    }
  }

  /** `FindChar` passes over no occurrence of `c`. */
  lemma {:induction false} FindCharFirst(s: string, p: nat, c: char)
    requires p <= |s|
    ensures Lacks(s[p..FindChar(s, p, c)], c)
    decreases |s| - p
  {
    if p < |s| && s[p] != c {
      FindCharFirst(s, p + 1, c);
      assert s[p..FindChar(s, p, c)] == [s[p]] + s[p + 1..FindChar(s, p + 1, c)];
    }
  }

  /** Starting anywhere before the first `c`, the search finds that same `c`. */
  lemma {:induction false} FindCharFrom(s: string, p: nat, i: nat, c: char)
    requires p <= |s| && p <= i <= FindChar(s, p, c)
    ensures FindChar(s, i, c) == FindChar(s, p, c)
    decreases i - p
  {
    if p < i {
      FindCharFrom(s, p + 1, i, c);
    }
  }

  /** The strings the pattern `-?\d+[.,]?\d*` matches: an optional minus,
      then digits, then possibly a separator and more digits. */
  predicate LooseNumber(t: string) {
    UnsignedLooseNumber(if |t| > 0 && t[0] == '-' then t[1..] else t)
  }

  /** `\d+[.,]?\d*`: a non-empty run of digits, and after it either nothing
      or a separator followed only by digits. */
  predicate UnsignedLooseNumber(body: string) {
    var k := DigitRun(body);
    k > 0 && (k == |body| || (IsSep(body[k]) && AllDigits(body[k + 1..])))
  }

  /** Where a match of `-?\d+[.,]?\d*` anchored at `p` ends: the greedy
      match, or `None` when no match starts at `p`. */
  function LooseNumberEnd(s: string, p: nat): (r: Option<nat>)
    requires p <= |s|
    ensures r.Some? ==> p < r.value <= |s|
  {
    var a := if p < |s| && s[p] == '-' then p + 1 else p;
    var b := SkipDigits(s, a);
    if b == a then None
    else
      var c := if b < |s| && IsSep(s[b]) then b + 1 else b;
      Some(SkipDigits(s, c))
  }

  /** A match of the number pattern starts with a minus or a digit, so never
      with white space. */
  lemma LooseNumberStart(t: string)
    requires LooseNumber(t)
    ensures |t| > 0 && (t[0] == '-' || IsDigit(t[0])) && !IsSpace(t[0])
  {
    var body := if |t| > 0 && t[0] == '-' then t[1..] else t;
    assert body[..DigitRun(body)][0] == body[0];
  }

  /** Where `LooseNumberEnd` finds a match, it is the longest match starting
      at `p`. */
  lemma LooseNumberEndMatches(s: string, p: nat)
    requires p <= |s| && LooseNumberEnd(s, p).Some?
    ensures LooseNumber(s[p..LooseNumberEnd(s, p).value])
    ensures forall f :: LooseNumberEnd(s, p).value < f <= |s| ==> !LooseNumber(s[p..f])
  {
    var a := if p < |s| && s[p] == '-' then p + 1 else p;
    var b := SkipDigits(s, a);
    var c := if b < |s| && IsSep(s[b]) then b + 1 else b;
    var e := SkipDigits(s, c);
    assert LooseNumberEnd(s, p) == Some(e);
    SkipDigitsAll(s, a);
    SkipDigitsAll(s, c);
    LooseNumberShape(s, p, a, b, c, e);
    if e < |s| {
      LooseNumberMaximal(s, p, a, b, c, e);
    }
  }

  /** Where `LooseNumberEnd` finds no match, no non-empty prefix of `s[p..]`
      matches. */
  lemma LooseNumberEndNone(s: string, p: nat)
    requires p <= |s| && LooseNumberEnd(s, p).None?
    ensures forall e :: p < e <= |s| ==> !LooseNumber(s[p..e])
  {
    var a := if p < |s| && s[p] == '-' then p + 1 else p;
    assert SkipDigits(s, a) == a;
    NoLooseNumber(s, p, a);
  }

  /** Past an optional minus at `p`, a match is a match of the unsigned part. */
  lemma SignedMatch(s: string, p: nat, a: nat, e: nat)
    requires p < e <= |s|
    requires a == if s[p] == '-' then p + 1 else p
    ensures LooseNumber(s[p..e]) <==> UnsignedLooseNumber(s[a..e])
  {
    var t := s[p..e];
    assert t[0] == s[p];
    if s[p] == '-' {
      assert t[1..] == s[a..e];
    } else {
      assert t == s[a..e];
    }
  }

  /** A run of digits followed by something that is not a digit matches
      `\d+[.,]?\d*` exactly when what follows is nothing, or a separator
      and digits. */
  lemma UnsignedShape(w: string, rest: string)
    requires |w| > 0 && AllDigits(w)
    requires rest == [] || !IsDigit(rest[0])
    ensures UnsignedLooseNumber(w + rest) <==>
      rest == [] || (IsSep(rest[0]) && AllDigits(rest[1..]))
  {
    DigitRunOfDigits(w, rest);
    if rest != [] {
      assert (w + rest)[|w|] == rest[0];
      assert (w + rest)[|w| + 1..] == rest[1..];
    }
  }

  /** No match starts where neither a digit nor a minus and a digit stand. */
  lemma NoLooseNumber(s: string, p: nat, a: nat)
    requires p <= a <= |s|
    requires a == if p < |s| && s[p] == '-' then p + 1 else p
    requires a == |s| || !IsDigit(s[a])
    ensures forall e :: p < e <= |s| ==> !LooseNumber(s[p..e])
  {
    forall e | p < e <= |s|
      ensures !LooseNumber(s[p..e])
    {
      SignedMatch(s, p, a, e);
      var body := s[a..e];
      if |body| > 0 {
        assert body[0] == s[a];
        DigitRunOfDigits([], body);
      }
    }
  }

  /** A non-empty slice of digits starts with a digit. */
  lemma DigitsHead(s: string, c: nat, e: nat)
    requires c <= e <= |s|
    ensures AllDigits(s[c..e]) && c < e ==> IsDigit(s[c])
  {
    if c < e {
      assert s[c..e][0] == s[c];
    }
  }

  /** The greedy pieces `-?`, `\d+`, `[.,]?`, `\d*` make a match. */
  lemma LooseNumberShape(s: string, p: nat, a: nat, b: nat, c: nat, e: nat)
    requires p <= a <= |s|
    requires a == if p < |s| && s[p] == '-' then p + 1 else p
    requires a < b <= |s| && AllDigits(s[a..b])
    requires b == |s| || !IsDigit(s[b])
    requires c == if b < |s| && IsSep(s[b]) then b + 1 else b
    requires c <= e <= |s| && AllDigits(s[c..e])
    ensures LooseNumber(s[p..e])
  {
    SignedMatch(s, p, a, e);
    assert s[a..e] == s[a..b] + s[b..e];
    UnsignedShape(s[a..b], s[b..e]);
    DigitsHead(s, c, e);
    if c == b + 1 {
      assert s[b..e][1..] == s[c..e];
    }
  }

  /** Nothing longer than the greedy match matches: every longer slice
      takes in the non-digit where the greedy match stopped. */
  lemma LooseNumberMaximal(s: string, p: nat, a: nat, b: nat, c: nat, e: nat)
    requires p <= a <= |s|
    requires a == if p < |s| && s[p] == '-' then p + 1 else p
    requires a < b <= |s| && AllDigits(s[a..b])
    requires b == |s| || !IsDigit(s[b])
    requires c == if b < |s| && IsSep(s[b]) then b + 1 else b
    requires c <= e < |s| && !IsDigit(s[e])
    ensures forall f :: e < f <= |s| ==> !LooseNumber(s[p..f])
  {
    forall f | e < f <= |s|
      ensures !LooseNumber(s[p..f])
    {
      LongerNoMatch(s, p, a, b, c, e, f);
    }
  }

  /** One longer slice, as `LooseNumberMaximal` states for all of them. */
  lemma LongerNoMatch(s: string, p: nat, a: nat, b: nat, c: nat, e: nat, f: nat)
    requires p <= a <= |s|
    requires a == if p < |s| && s[p] == '-' then p + 1 else p
    requires a < b <= |s| && AllDigits(s[a..b])
    requires b == |s| || !IsDigit(s[b])
    requires c == if b < |s| && IsSep(s[b]) then b + 1 else b
    requires c <= e < f <= |s| && !IsDigit(s[e])
    ensures !LooseNumber(s[p..f])
  {
    SignedMatch(s, p, a, f);
    var rest := s[b..f];
    assert s[a..f] == s[a..b] + rest;
    assert rest[0] == s[b] && rest[e - b] == s[e];
    NotUnsigned(s[a..b], rest, e - b);
  }

  /** Digits followed by a non-digit that is not a separator, or by a
      separator and then a non-digit at `j`, do not match `\d+[.,]?\d*`. */
  lemma NotUnsigned(w: string, rest: string, j: nat)
    requires |w| > 0 && AllDigits(w)
    requires |rest| > 0 && !IsDigit(rest[0])
    requires !IsSep(rest[0]) || (0 < j < |rest| && !IsDigit(rest[j]))
    ensures !UnsignedLooseNumber(w + rest)
  {
    UnsignedShape(w, rest);
    if IsSep(rest[0]) {
      assert rest[1..][j - 1] == rest[j];
    }
  }

  /** `re.search(r'([\-]?\d+[.,]?\d*)', s)`: the leftmost match at or after
      `p`, as its start and end. */
  function SearchLooseNumber(s: string, p: nat): (r: Option<(nat, nat)>)
    requires p <= |s|
    ensures r.Some? ==> p <= r.value.0 < r.value.1 <= |s|
    decreases |s| - p
  {
    match LooseNumberEnd(s, p)
    case Some(e) => Some((p, e))
    case None => if p == |s| then None else SearchLooseNumber(s, p + 1)
  }

  /** The search finds the leftmost start of a match, and the greedy match
      there; `None` when no match starts anywhere from `p` on. */
  lemma {:induction false} SearchLooseNumberSpec(s: string, p: nat)
    requires p <= |s|
    ensures SearchLooseNumber(s, p).Some? ==>
      LooseNumberEnd(s, SearchLooseNumber(s, p).value.0) == Some(SearchLooseNumber(s, p).value.1)
    ensures SearchLooseNumber(s, p).Some? ==>
      forall q :: p <= q < SearchLooseNumber(s, p).value.0 ==> LooseNumberEnd(s, q).None?
    ensures SearchLooseNumber(s, p).None? ==> forall q :: p <= q <= |s| ==> LooseNumberEnd(s, q).None?
    decreases |s| - p
  {
    var r := SearchLooseNumber(s, p);
    if LooseNumberEnd(s, p).Some? {
      assert r == Some((p, LooseNumberEnd(s, p).value));
    } else if p == |s| {
      assert r == None;
    } else {
      SearchLooseNumberSpec(s, p + 1);
      assert r == SearchLooseNumber(s, p + 1);
      if r.Some? {
        forall q | p <= q < r.value.0
          ensures LooseNumberEnd(s, q).None?
        {
          if q == p {
            assert LooseNumberEnd(s, p).None?;
          }
        }
      }
    }
  }

  /** A match of `\d+[.,]?\d*` with its separator read as a point is a
      numeral: so `float` accepts whatever the amount patterns capture. */
  lemma UnsignedNumeral(body: string) returns (n: Numeral)
    requires UnsignedLooseNumber(body)
    ensures WellFormed(n) && !n.negative && Spell(n) == ReplaceChar(body, ',', '.')
  {
    var k := DigitRun(body);
    if k == |body| {
      assert body[..k] == body;
      ReplaceAbsent(body, ',', '.');
      n := Numeral(false, body, false, []);
      assert body + ("" + []) == body;
      assert "" + body == body;
    } else {
      var w, f := SplitAtSeparator(body);
      PointForSeparator(w, body[k], f);
      n := Numeral(false, w, true, f);
      assert "" + (w + ("." + f)) == w + ("." + f);
    }
  }

  /** A match of `-?\d+[.,]?\d*`, with its separator read as a point, spells
      a numeral. */
  lemma LooseNumeral(t: string) returns (n: Numeral)
    requires LooseNumber(t)
    ensures WellFormed(n) && Spell(n) == ReplaceChar(t, ',', '.')
  {
    var neg := t[0] == '-';
    var sign := if neg then "-" else "";
    var body := if neg then t[1..] else t;
    assert t == sign + body;
    var m := UnsignedNumeral(body);
    n := m.(negative := neg);
    ReplaceAppend(sign, body, ',', '.');
    assert ReplaceChar(sign, ',', '.') == sign;
    var x := m.whole + ((if m.point then "." else "") + m.fraction);
    assert Spell(m) == "" + x == x;
  }

  /** `float` accepts whatever the pattern `-?\d+[.,]?\d*` matches, once its
      separator is read as a point. */
  lemma LooseNumberReads(t: string)
    requires LooseNumber(t)
    ensures ReadFloat(ReplaceChar(t, ',', '.')).Some?
  {
    var n := LooseNumeral(t);
    ParseSpell(n);
  }

  /** A match anchored at `p` is found there. */
  lemma LooseNumberEndFinds(s: string, p: nat, e: nat)
    requires p < e <= |s|
    ensures LooseNumber(s[p..e]) ==> LooseNumberEnd(s, p).Some?
  {
    if LooseNumberEnd(s, p).None? {
      LooseNumberEndNone(s, p);
    }
  }

  /** `re.search` semantics: the search returns the leftmost start of a match
      and, there, the longest match. */
  lemma SearchFinds(s: string, a: nat, e: nat)
    requires a < e <= |s| && LooseNumber(s[a..e])
    requires forall i, j :: 0 <= i < a && i < j <= |s| ==> !LooseNumber(s[i..j])
    requires forall f :: e < f <= |s| ==> !LooseNumber(s[a..f])
    ensures SearchLooseNumber(s, 0) == Some((a, e))
  {
    SearchLooseNumberSpec(s, 0);
    LooseNumberEndFinds(s, a, e);
    var r := SearchLooseNumber(s, 0);
    assert r.Some?;
    var a', e' := r.value.0, r.value.1;
    LooseNumberEndMatches(s, a');
    assert LooseNumber(s[a'..e']);
    assert a <= a';
    assert a' <= a;
    assert e' == e;
  }

  /** A match with a separator is the digits before it, the separator and
      the digits after it. */
  lemma SplitAtSeparator(body: string) returns (w: string, f: string)
    requires UnsignedLooseNumber(body) && DigitRun(body) < |body|
    ensures AllDigits(w) && AllDigits(f) && IsSep(body[DigitRun(body)])
    ensures body == w + ([body[DigitRun(body)]] + f)
  {
    var k := DigitRun(body);
    w := body[..k];
    f := body[k + 1..];
    assert body == w + ([body[k]] + f);
  }

  /** Turning `,` into `.` leaves the digits alone and makes the separator a point. */
  lemma PointForSeparator(w: string, c: char, f: string)
    requires AllDigits(w) && AllDigits(f) && IsSep(c)
    ensures ReplaceChar(w + ([c] + f), ',', '.') == w + ("." + f)
  {
    ReplaceAbsent(w, ',', '.');
    ReplaceAbsent(f, ',', '.');
    ReplaceAppend(w, [c] + f, ',', '.');
    ReplaceAppend([c], f, ',', '.');
    assert ReplaceChar([c], ',', '.') == ".";
  }
}
