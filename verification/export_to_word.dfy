/**
 The folder export: every receipt file in a folder whose name carries an
 amount (`..._12,50€...`) becomes a row of a two-column table, with the
 description taken from a name of the form `YYYY-MM-DD_HH-MM-SS_desc_amount€`,
 and a last row gives the total.
 */
module ExportToWord {
  import opened Text
  import opened Optional
  import opened Decimal
  import opened Scan
  import opened Seqs

  /** A folder entry: its name and whether it is a directory. */
  datatype Entry = Entry(name: string, isDirectory: bool)

  /** `-?\d+[.,]\d+`: an optional minus, then digits on both sides of a
      separator. */
  predicate StrictAmount(t: string) {
    UnsignedStrict(if |t| > 0 && t[0] == '-' then t[1..] else t)
  }

  /** `\d+[.,]\d+`. */
  predicate UnsignedStrict(body: string) {
    var k := DigitRun(body);
    0 < k && k + 1 < |body| && IsSep(body[k]) && AllDigits(body[k + 1..])
  }

  /** Where `-?\d+[.,]\d+€` anchored at `p` has its `€`, or `None` when the
      pattern does not match at `p`. */
  function AmountAt(s: string, p: nat): (r: Option<nat>)
    requires p <= |s|
    ensures r.Some? ==> p < r.value < |s| && s[r.value] == '€'
  {
    var a := if p < |s| && s[p] == '-' then p + 1 else p;
    var b := SkipDigits(s, a);
    if b == a || b == |s| || !IsSep(s[b]) then None
    else
      var e := SkipDigits(s, b + 1);
      if e == b + 1 || e == |s| || s[e] != '€' then None else Some(e)
  }

  /** Past an optional minus at `p`, an amount is an unsigned amount. */
  lemma StrictSigned(s: string, p: nat, a: nat, e: nat)
    requires p < e <= |s|
    requires a == if s[p] == '-' then p + 1 else p
    ensures StrictAmount(s[p..e]) <==> UnsignedStrict(s[a..e])
  {
    var t := s[p..e];
    assert t[0] == s[p];
    if s[p] == '-' {
      assert t[1..] == s[a..e];
    } else {
      assert t == s[a..e];
    }
  }

  /** Digits followed by something that is not a digit make `\d+[.,]\d+`
      exactly when what follows is a separator and at least one digit, and
      nothing else. */
  lemma StrictShape(w: string, rest: string)
    requires |w| > 0 && AllDigits(w)
    requires rest == [] || !IsDigit(rest[0])
    ensures UnsignedStrict(w + rest) <==> |rest| >= 2 && IsSep(rest[0]) && AllDigits(rest[1..])
  {
    DigitRunOfDigits(w, rest);
    if rest != [] {
      assert (w + rest)[|w|] == rest[0];
      assert (w + rest)[|w| + 1..] == rest[1..];
    }
  }

  /** Where the pattern matches at `p`, the text up to the `€` is an amount. */
  lemma AmountAtSound(s: string, p: nat)
    requires p <= |s| && AmountAt(s, p).Some?
    ensures StrictAmount(s[p..AmountAt(s, p).value])
  {
    var a := if p < |s| && s[p] == '-' then p + 1 else p;
    var b := SkipDigits(s, a);
    var e := AmountAt(s, p).value;
    SkipDigitsAll(s, a);
    SkipDigitsAll(s, b + 1);
    UnsignedFrom(s, a, b, e);
    StrictSigned(s, p, a, e);
  }

  /** Digits from `a` to `b`, a separator at `b` and digits after it up to
      `e` make `\d+[.,]\d+`. */
  lemma UnsignedFrom(s: string, a: nat, b: nat, e: nat)
    requires a < b && b + 1 < e <= |s|
    requires AllDigits(s[a..b]) && IsSep(s[b]) && AllDigits(s[b + 1..e])
    ensures UnsignedStrict(s[a..e])
  {
    var rest := s[b..e];
    assert s[a..e] == s[a..b] + rest;
    assert rest[0] == s[b] && rest[1..] == s[b + 1..e];
    StrictShape(s[a..b], rest);
  }

  /** Conversely, every amount followed by `€` is found where it starts. */
  lemma AmountAtComplete(s: string, p: nat, e: nat)
    requires p < e < |s| && StrictAmount(s[p..e]) && s[e] == '€'
    ensures AmountAt(s, p) == Some(e)
  {
    var a := if s[p] == '-' then p + 1 else p;
    StrictSigned(s, p, a, e);
    var b := StrictPieces(s, a, e);
    AmountAtFrom(s, p, b, e);
  }

  /** An unsigned amount from `a` to `e`, with no digit at `e`: the digit
      runs on both sides of its separator are the ones `SkipDigits` finds. */
  lemma StrictPieces(s: string, a: nat, e: nat) returns (b: nat)
    requires a < e < |s| && UnsignedStrict(s[a..e]) && !IsDigit(s[e])
    ensures a < b && b + 1 < e && IsSep(s[b])
    ensures SkipDigits(s, a) == b && SkipDigits(s, b + 1) == e
  {
    var k := DigitRun(s[a..e]);
    SubSlices(s, a, k, e);
    b := a + k;
    SkipDigitsTo(s, a, b);
    SkipDigitsTo(s, b + 1, e);
  }

  /** The pieces of a slice, cut at `k` around one character. */
  lemma SubSlices(s: string, a: nat, k: nat, e: nat)
    requires a + k < e <= |s|
    ensures s[a..e][..k] == s[a..a + k]
    ensures s[a..e][k] == s[a + k]
    ensures s[a..e][k + 1..] == s[a + k + 1..e]
  {
  }

  /** The greedy pieces `-?`, `\d+`, `[.,]`, `\d+`, `€` make a match. */
  lemma AmountAtFrom(s: string, p: nat, b: nat, e: nat)
    requires p <= |s|
    requires var a := if p < |s| && s[p] == '-' then p + 1 else p;
      a < b < |s| && SkipDigits(s, a) == b && IsSep(s[b])
    requires b + 1 < e < |s| && SkipDigits(s, b + 1) == e && s[e] == '€'
    ensures AmountAt(s, p) == Some(e)
  {
  }

  /** `sumRegex.find(name)`: the leftmost match, as the start and end of the
      amount (the `€` follows it). */
  function FindAmount(s: string, p: nat): (r: Option<(nat, nat)>)
    requires p <= |s|
    ensures r.Some? ==> p <= r.value.0 < r.value.1 < |s|
    decreases |s| - p
  {
    match AmountAt(s, p)
    case Some(e) => Some((p, e))
    case None => if p == |s| then None else FindAmount(s, p + 1)
  }

  /** The search finds the leftmost match, or reports that none starts at or
      after `p`. */
  lemma {:induction false} FindAmountSpec(s: string, p: nat)
    requires p <= |s|
    ensures FindAmount(s, p).Some? ==> AmountAt(s, FindAmount(s, p).value.0) == Some(FindAmount(s, p).value.1)
    ensures FindAmount(s, p).Some? ==> forall q :: p <= q < FindAmount(s, p).value.0 ==> AmountAt(s, q).None?
    ensures FindAmount(s, p).None? ==> forall q :: p <= q <= |s| ==> AmountAt(s, q).None?
    decreases |s| - p
  {
    if AmountAt(s, p).None? && p < |s| {
      FindAmountSpec(s, p + 1);
      forall q | p <= q <= |s| && (FindAmount(s, p).None? || q < FindAmount(s, p).value.0)
        ensures AmountAt(s, q).None?
      {
      }
    }
  }

  /** An amount as the pattern accepts it always converts to a number once
      its separator is a point. */
  lemma StrictAmountReads(t: string)
    requires StrictAmount(t)
    ensures ReadFloat(ReplaceChar(t, ',', '.')).Some?
  {
    var body := if |t| > 0 && t[0] == '-' then t[1..] else t;
    assert UnsignedLooseNumber(body);
    LooseNumberReads(t);
  }

  /** The shape of the time stamp at the start of a receipt name; `d` stands
      for a digit. */
  const StampShape: string := "dddd-dd-dd_dd-dd-dd_"

  /** A time stamp `YYYY-MM-DD_HH-MM-SS_` starts at `p`. */
  predicate StampAt(s: string, p: nat) {
    p + |StampShape| <= |s|
    && forall i :: 0 <= i < |StampShape| ==>
         if StampShape[i] == 'd' then IsDigit(s[p + i]) else s[p + i] == StampShape[i]
  }

  /** The characters a Java `.` does not match. */
  predicate IsLineBreak(c: char) {
    c == '\n' || c == '\r' || c == '\U{85}' || c == '\U{2028}' || c == '\U{2029}'
  }

  /** The first line break at or after `p`, or the end: how far `.+` can reach. */
  function LineEnd(s: string, p: nat): (q: nat)
    requires p <= |s|
    ensures p <= q <= |s|
    ensures q == |s| || IsLineBreak(s[q])
    decreases |s| - p
  {
    if p < |s| && !IsLineBreak(s[p]) then LineEnd(s, p + 1) else p
  }

  /** Nothing before `LineEnd` is a line break. */
  lemma {:induction false} LineEndClear(s: string, p: nat)
    requires p <= |s|
    ensures forall i :: p <= i < LineEnd(s, p) ==> !IsLineBreak(s[i])
    decreases |s| - p
  {
    if p < |s| && !IsLineBreak(s[p]) {
      LineEndClear(s, p + 1);
    }
  }

  /** Where `(.+)` may stop: at an underscore after at least one character,
      with an amount and `€` right after the underscore. */
  predicate Cut(s: string, q: nat, c: nat) {
    q < c < |s| && s[c] == '_' && AmountAt(s, c + 1).Some?
  }

  /** The last cut before `k`: the greedy `(.+)` backs off from the end of
      its reach until the rest of the pattern matches. */
  function LastCut(s: string, q: nat, k: nat): (r: Option<nat>)
    requires k <= |s|
    ensures r.Some? ==> q < r.value < k
  {
    if k <= q + 1 then None
    else if Cut(s, q, k - 1) then Some(k - 1)
    else LastCut(s, q, k - 1)
  }

  /** `LastCut` finds a cut, and none lies between it and `k`; `None` when no
      cut lies before `k`. */
  lemma {:induction false} LastCutSpec(s: string, q: nat, k: nat)
    requires k <= |s|
    ensures LastCut(s, q, k).Some? ==> Cut(s, q, LastCut(s, q, k).value)
    ensures LastCut(s, q, k).Some? ==> forall c :: LastCut(s, q, k).value < c < k ==> !Cut(s, q, c)
    ensures LastCut(s, q, k).None? ==> forall c: nat :: c < k ==> !Cut(s, q, c)
  {
    if k > q + 1 && !Cut(s, q, k - 1) {
      LastCutSpec(s, q, k - 1);
    }
  }

  /** The description the pattern captures when its match starts at `p`. */
  function DescriptionAt(s: string, p: nat): Option<string> {
    if !StampAt(s, p) then None
    else
      var q := p + |StampShape|;
      match LastCut(s, q, LineEnd(s, q))
      case None => None
      case Some(c) => Some(s[q..c])
  }

  /** What the captured description is: the text after the time stamp (which
      ends at `q`) up to the last underscore that is followed by an amount and
      `€` and that `.+` reaches without crossing a line break. */
  lemma DescriptionAtSpec(s: string, p: nat) returns (q: nat, c: nat)
    requires DescriptionAt(s, p).Some?
    ensures StampAt(s, p) && q == p + |StampShape| && Cut(s, q, c)
    ensures DescriptionAt(s, p) == Some(s[q..c])
    ensures forall i :: q <= i < c ==> !IsLineBreak(s[i])
    ensures forall c' :: c < c' < |s| && Cut(s, q, c') ==> exists i :: c < i < c' && IsLineBreak(s[i])
  {
    q := p + |StampShape|;
    var r := LineEnd(s, q);
    c := LastCut(s, q, r).value;
    LastCutSpec(s, q, r);
    LineEndClear(s, q);
    forall c' | c < c' < |s| && Cut(s, q, c')
      ensures exists i :: c < i < c' && IsLineBreak(s[i])
    {
      assert r < c';
      assert c < r && IsLineBreak(s[r]);
    }
  }

  /** The description pattern matches at `p`: a time stamp, then a cut that
      `.+` reaches from the stamp's end without crossing a line break. */
  ghost predicate DescriptionMatchesAt(s: string, p: nat) {
    StampAt(s, p) && CutReachable(s, p + |StampShape|)
  }

  /** Some cut lies after `q` with no line break between `q` and it. */
  ghost predicate CutReachable(s: string, q: nat) {
    exists c: nat :: Cut(s, q, c) && forall i :: q <= i < c ==> !IsLineBreak(s[i])
  }

  /** A stamp followed by a cut that `.+` reaches gives a capture. */
  lemma DescriptionAtComplete(s: string, p: nat, c: nat)
    requires StampAt(s, p) && Cut(s, p + |StampShape|, c)
    requires forall i :: p + |StampShape| <= i < c ==> !IsLineBreak(s[i])
    ensures DescriptionAt(s, p).Some?
  {
    var q := p + |StampShape|;
    LineEndClear(s, q);
    if LineEnd(s, q) <= c {
      assert false;
    }
    LastCutSpec(s, q, LineEnd(s, q));
  }

  /** The scanner captures at `p` exactly when the pattern matches there. */
  lemma DescriptionAtMatches(s: string, p: nat)
    ensures DescriptionAt(s, p).Some? <==> DescriptionMatchesAt(s, p)
  {
    if DescriptionAt(s, p).Some? {
      var q, c := DescriptionAtSpec(s, p);
      assert Cut(s, p + |StampShape|, c);
    } else if DescriptionMatchesAt(s, p) {
      var c: nat :| Cut(s, p + |StampShape|, c)
        && forall i :: p + |StampShape| <= i < c ==> !IsLineBreak(s[i]);
      DescriptionAtComplete(s, p, c);
    }
  }

  /** `descriptionRegex.find(name)`: the capture of the leftmost match. */
  function FindDescription(s: string, p: nat): Option<string>
    requires p <= |s|
  {
    FirstSome((i: nat) => DescriptionAt(s, i), p, |s|)
  }

  /** `find` gives the capture of the match at the leftmost position where
      the pattern matches, and `None` when it matches at no position. */
  lemma FindDescriptionSpec(s: string, p: nat)
    requires p <= |s|
    ensures FindDescription(s, p).None? <==> forall i :: p <= i <= |s| ==> !DescriptionMatchesAt(s, i)
    ensures FindDescription(s, p).Some? ==>
      exists i :: p <= i <= |s| && DescriptionMatchesAt(s, i) && DescriptionAt(s, i) == FindDescription(s, p)
        && forall j :: p <= j < i ==> !DescriptionMatchesAt(s, j)
  {
    FindDescriptionLeftmost(s, p);
    forall i | p <= i <= |s|
      ensures DescriptionAt(s, i).Some? <==> DescriptionMatchesAt(s, i)
    {
      DescriptionAtMatches(s, i);
    }
  }

  /** `find` in terms of the scanner's own captures: the leftmost one. */
  lemma FindDescriptionLeftmost(s: string, p: nat)
    requires p <= |s|
    ensures FindDescription(s, p).None? <==> forall i :: p <= i <= |s| ==> DescriptionAt(s, i).None?
    ensures FindDescription(s, p).Some? ==>
      exists i :: p <= i <= |s| && DescriptionAt(s, i) == FindDescription(s, p)
        && forall j :: p <= j < i ==> DescriptionAt(s, j).None?
  {
    var f := (i: nat) => DescriptionAt(s, i);
    assert FindDescription(s, p) == FirstSome(f, p, |s|);
    FirstSomeSpec(f, p, |s|);
    if FindDescription(s, p).Some? {
      var i :| p <= i <= |s| && f(i) == FindDescription(s, p) && forall j :: p <= j < i ==> f(j).None?;
      assert DescriptionAt(s, i) == FindDescription(s, p);
      forall j | p <= j < i
        ensures DescriptionAt(s, j).None?
      {
        assert f(j).None?;
      }
    } else {
      forall i | p <= i <= |s|
        ensures DescriptionAt(s, i).None?
      {
        assert f(i).None?;
      }
    }
  }

  /** The description of an item: the capture with `_` read as a space, empty
      when the pattern does not match, and empty for the generic captures
      `manual` and `receipt`. */
  function Describe(name: string): string {
    var d := match FindDescription(name, 0)
      case None => []
      case Some(d) => ReplaceChar(d, '_', ' ');
    if d == "manual" || d == "receipt" then [] else d
  }

  /** The item an entry yields: none for a directory, a name without `€` or
      a name without an amount; otherwise its description and the value of
      its first amount, the separator read as a point. */
  function ItemOf(e: Entry): Option<(string, real)> {
    if e.isDirectory || !Contains(e.name, "€") then None
    else
      match FindAmount(e.name, 0)
      case None => None
      case Some(m) =>
        FindAmountSpec(e.name, 0);
        AmountAtSound(e.name, m.0);
        StrictAmountReads(e.name[m.0..m.1]);
        Some((Describe(e.name), ReadFloat(ReplaceChar(e.name[m.0..m.1], ',', '.')).value))
  }

  /** An item comes from a file whose name has an amount followed by `€`;
      its amount is the value of the leftmost such amount, the separator read
      as a point. */
  lemma ItemOfMatch(e: Entry) returns (p: nat, q: nat)
    requires ItemOf(e).Some?
    ensures !e.isDirectory && p < q < |e.name| && StrictAmount(e.name[p..q]) && e.name[q] == '€'
    ensures ReadFloat(ReplaceChar(e.name[p..q], ',', '.')).Some?
    ensures ItemOf(e).value == (Describe(e.name), ReadFloat(ReplaceChar(e.name[p..q], ',', '.')).value)
    ensures forall p', q' :: 0 <= p' < p && p' < q' < |e.name| ==> !(StrictAmount(e.name[p'..q']) && e.name[q'] == '€')
  {
    var s := e.name;
    FindAmountSpec(s, 0);
    p, q := FindAmount(s, 0).value.0, FindAmount(s, 0).value.1;
    AmountAtSound(s, p);
    StrictAmountReads(s[p..q]);
    forall p', q' | 0 <= p' < p && p' < q' < |s|
      ensures !(StrictAmount(s[p'..q']) && s[q'] == '€')
    {
      if StrictAmount(s[p'..q']) && s[q'] == '€' {
        AmountAtComplete(s, p', q');
      }
    }
  }

  /** Conversely, a file that is not a directory and whose name has an amount
      followed by `€` yields an item: the `€` test adds nothing to the
      pattern. */
  lemma ItemOfFound(e: Entry, p: nat, q: nat)
    requires !e.isDirectory && p < q < |e.name| && StrictAmount(e.name[p..q]) && e.name[q] == '€'
    ensures ItemOf(e).Some?
  {
    var s := e.name;
    AmountAtComplete(s, p, q);
    FindAmountSpec(s, 0);
    assert s[q..q + 1] == "€";
    ContainsAt(s, "€", q);
  }

  function AmountSum(items: seq<(string, real)>): real {
    if items == [] then 0.0 else AmountSum(items[..|items| - 1]) + items[|items| - 1].1
  }

  /** The folder scan: one item per entry that yields one, in listing order,
      and the total of their amounts; nothing when the listing is missing. */
  method ScanFolder(listing: Option<seq<Entry>>) returns (items: seq<(string, real)>, total: real)
    ensures items == Listed(listing)
    ensures total == AmountSum(items)
  {
    items, total := [], 0.0;
    if listing.None? {
      return;
    }
    var entries := listing.value;
    var j := 0;
    while j < |entries|
      invariant j <= |entries|
      invariant items == FilterMap(ItemOf, entries[..j])
      invariant total == AmountSum(items)
    {
      ScanAdvance(entries, j, items);
      var item := ItemOf(entries[j]);
      if item.Some? {
        items := items + [item.value];
        total := total + item.value.1;
      }
      j := j + 1;
    }
    assert entries[..j] == entries;
  }

  /** One step of the scan: the entry at `j` adds its item, if any, and its
      amount to the total. */
  lemma ScanAdvance(entries: seq<Entry>, j: nat, items: seq<(string, real)>)
    requires j < |entries| && items == FilterMap(ItemOf, entries[..j])
    ensures ItemOf(entries[j]).None? ==> FilterMap(ItemOf, entries[..j + 1]) == items
    ensures ItemOf(entries[j]).Some? ==>
      && FilterMap(ItemOf, entries[..j + 1]) == items + [ItemOf(entries[j]).value]
      && AmountSum(items + [ItemOf(entries[j]).value]) == AmountSum(items) + ItemOf(entries[j]).value.1
  {
    assert entries[..j + 1] == entries[..j] + [entries[j]];
    FilterMapAppend(ItemOf, entries[..j], [entries[j]]);
    assert FilterMap(ItemOf, [entries[j]][1..]) == [];
    if ItemOf(entries[j]).Some? {
      assert (items + [ItemOf(entries[j]).value])[..|items|] == items;
    } else {
      assert items + [] == items;
    }
  }

  /** The items of a listing; none when the folder cannot be listed. */
  function Listed(listing: Option<seq<Entry>>): seq<(string, real)> {
    if listing.None? then [] else FilterMap(ItemOf, listing.value)
  }

  /** The table row of an item; `money` is the locale's `%.2f €`. */
  function ItemRow(item: (string, real), money: real -> string): seq<string> {
    [item.0, money(item.1)]
  }

  /** The exported table: a header row, a row per item, and the total row. */
  method ExportTable(listing: Option<seq<Entry>>, money: real -> string) returns (rows: seq<seq<string>>)
    ensures |rows| == |Listed(listing)| + 2
    ensures rows[0] == ["Popis", "Suma"]
    ensures forall k :: 0 <= k < |Listed(listing)| ==> rows[k + 1] == ItemRow(Listed(listing)[k], money)
    ensures rows[|rows| - 1] == ["Spolu:", money(AmountSum(Listed(listing)))]
  {
    var items, total := ScanFolder(listing);
    rows := [["Popis", "Suma"]];
    var k := 0;
    while k < |items|
      invariant k <= |items|
      invariant |rows| == k + 1 && rows[0] == ["Popis", "Suma"]
      invariant forall i :: 0 <= i < k ==> rows[i + 1] == ItemRow(items[i], money)
    {
      rows := rows + [ItemRow(items[k], money)];
      k := k + 1;
    }
    rows := rows + [["Spolu:", money(total)]];
  }
}
