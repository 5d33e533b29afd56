/** Reading the user's choice of records: "a", "all" or "*" for everything,
    otherwise comma-separated 1-based indices and inclusive ranges such as
    "1,3-5". An answer with any bad piece is rejected as a whole. */
module Selection {
  import opened Wrappers
  import opened Text

  predicate IsDigit(c: char) { '0' <= c <= '9' }

  predicate AllDigits(s: string) {
    forall i :: 0 <= i < |s| ==> IsDigit(s[i])
  }

  /** The value of a string of decimal digits, most significant first. */
  function DigitsValue(s: string): nat
    requires AllDigits(s)
  {
    if s == [] then 0
    else DigitsValue(s[..|s| - 1]) * 10 + (s[|s| - 1] as int - '0' as int)
  }

  /** The decimal digits of `n`: the inverse of `DigitsValue`. */
  function Decimal(n: nat): (r: string)
    ensures r != [] && AllDigits(r)
  {
    if n < 10 then [('0' as int + n) as char]
    else Decimal(n / 10) + [('0' as int + n % 10) as char]
  }

  lemma {:induction false} DigitsValueDecimal(n: nat)
    ensures DigitsValue(Decimal(n)) == n
  {
    if n >= 10 {
      var d := Decimal(n);
      assert d[..|d| - 1] == Decimal(n / 10);
      DigitsValueDecimal(n / 10);
    }
  }

  predicate IsSign(c: char) { c == '+' || c == '-' }

  /** A numeral without its sign. */
  function Unsigned(t: string): string {
    if t != [] && IsSign(t[0]) then t[1..] else t
  }

  /** `int(s)`: optional surrounding whitespace, an optional sign, then one or
      more decimal digits; anything else raises, which is `None` here. */
  function ParseInt(s: string): Option<int>
  {
    var t := Strip(s);
    var u := Unsigned(t);
    if u == [] || !AllDigits(u) then None
    else
      var v := DigitsValue(u);
      Some(if t[0] == '-' then 0 - v else v)
  }

  /** `int` reads back what `Decimal` writes. */
  lemma {:induction false} ParseIntDecimal(n: nat)
    ensures ParseInt(Decimal(n)) == Some(n)
  {
    ParseIntDigits(Decimal(n));
    DigitsValueDecimal(n);
  }

  /** A minus sign in front of a numeral negates it. */
  lemma {:induction false} ParseIntNegative(n: nat)
    ensures ParseInt(['-'] + Decimal(n)) == Some(0 - n)
  {
    ParseIntSigned(Decimal(n));
    DigitsValueDecimal(n);
  }

  lemma {:induction false} ParseIntDigits(d: string)
    requires d != [] && AllDigits(d)
    ensures ParseInt(d) == Some(DigitsValue(d))
  {
    assert IsDigit(d[0]) && IsDigit(d[|d| - 1]);
    StripUntouched(d);
  }

  lemma {:induction false} ParseIntSigned(d: string)
    requires d != [] && AllDigits(d)
    ensures ParseInt(['-'] + d) == Some(0 - DigitsValue(d))
  {
    var t := ['-'] + d;
    assert t[0] == '-' && t[|t| - 1] == d[|d| - 1] && IsDigit(d[|d| - 1]);
    StripUntouched(t);
    assert t[1..] == d;
  }

  /** One comma-separated piece of an answer: an index or an inclusive range. */
  datatype Part = Single(k: int) | Span(lo: int, hi: int)

  /** `range(lo, hi + 1)` as a set. */
  function RangeSet(lo: int, hi: int): (r: set<int>)
    ensures forall x :: x in r <==> lo <= x <= hi
    decreases hi - lo
  {
    if lo > hi then {} else {lo} + RangeSet(lo + 1, hi)
  }

  /** The indices a piece selects. */
  function Covered(p: Part): set<int> {
    match p
    case Single(k) => {k}
    case Span(lo, hi) => RangeSet(lo, hi)
  }

  /** A piece is acceptable when everything it selects is one of the `n` records. */
  predicate InRange(p: Part, n: int) {
    match p
    case Single(k) => 1 <= k <= n
    case Span(lo, hi) => 1 <= lo <= hi <= n
  }

  /** `s.split(c, 1)` when `c` occurs in `s`: the text before the first `c`
      and the text after it. */
  function SplitOnce(s: string, c: char): (string, string) {
    if s == [] then ([], [])
    else if s[0] == c then ([], s[1..])
    else
      var (a, b) := SplitOnce(s[1..], c);
      ([s[0]] + a, b)
  }

  lemma {:induction false} SplitOnceAt(a: string, c: char, b: string)
    requires c !in a
    ensures SplitOnce(a + [c] + b, c) == (a, b)
  {
    if a != [] {
      assert (a + [c] + b)[0] == a[0] != c;
      assert (a + [c] + b)[1..] == a[1..] + [c] + b;
      SplitOnceAt(a[1..], c, b);
      assert [a[0]] + a[1..] == a;
    }
  }

  /** Parses one piece: with a `-` it is a range split at the first `-`, whose
      ends must satisfy 1 <= lo <= hi <= n; otherwise an index in 1..n. */
  function ParsePart(part: string, n: int): (r: Option<Part>)
    ensures r.Some? ==> InRange(r.value, n)
    ensures r.Some? && r.value.Single? ==> '-' !in Strip(part) && ParseInt(Strip(part)) == Some(r.value.k)
    ensures r.Some? && r.value.Span? ==>
              && '-' in Strip(part)
              && ParseInt(SplitOnce(Strip(part), '-').0) == Some(r.value.lo)
              && ParseInt(SplitOnce(Strip(part), '-').1) == Some(r.value.hi)
  {
    var p := Strip(part);
    if '-' in p then
      var (l, h) := SplitOnce(p, '-');
      var lo := ParseInt(l);
      var hi := ParseInt(h);
      if lo.None? || hi.None? || lo.value < 1 || hi.value > n || lo.value > hi.value then None
      else Some(Span(lo.value, hi.value))
    else
      var k := ParseInt(p);
      if k.None? || k.value < 1 || k.value > n then None
      else Some(Single(k.value))
  }

  /** Conversely, every piece that `int()` reads as an index in 1..n, or as
      a range lo..hi with 1 <= lo <= hi <= n once trimmed and split at its
      first '-', is accepted as that index or range; so " 3", "+3", "03"
      and "3 - 5" are accepted like "3" and "3-5". */
  lemma {:induction false} ParsePartAccepts(part: string, n: int)
    ensures var k := ParseInt(Strip(part));
      '-' !in Strip(part) && k.Some? && 1 <= k.value <= n ==> ParsePart(part, n) == Some(Single(k.value))
    ensures var lo := ParseInt(SplitOnce(Strip(part), '-').0);
      var hi := ParseInt(SplitOnce(Strip(part), '-').1);
      '-' in Strip(part) && lo.Some? && hi.Some? && 1 <= lo.value <= hi.value <= n ==>
        ParsePart(part, n) == Some(Span(lo.value, hi.value))
  {
  }

  /** Parses every piece with `parse`, in order; one rejected piece rejects
      them all. */
  function ParseEach<P>(parts: seq<string>, parse: string -> Option<P>): (r: Option<seq<P>>)
    ensures r.Some? <==> forall i :: 0 <= i < |parts| ==> parse(parts[i]).Some?
    ensures r.Some? ==> |r.value| == |parts|
    ensures r.Some? ==> forall i :: 0 <= i < |parts| ==> r.value[i] == parse(parts[i]).value
  {
    if parts == [] then Some([])
    else
      var last := |parts| - 1;
      var init := parts[..last];
      var a := ParseEach(init, parse);
      var b := parse(parts[last]);
      assert forall i :: 0 <= i < last ==> init[i] == parts[i];
      if a.Some? && b.Some? then Some(a.value + [b.value]) else None
  }

  /** Parses every piece; one bad piece rejects the answer, otherwise the
      answer's pieces are the pieces the texts denote, in order. */
  function ParseParts(parts: seq<string>, n: int): (r: Option<seq<Part>>)
    ensures r.Some? <==> forall i :: 0 <= i < |parts| ==> ParsePart(parts[i], n).Some?
    ensures r.Some? ==> |r.value| == |parts|
    ensures r.Some? ==> forall i :: 0 <= i < |parts| ==> r.value[i] == ParsePart(parts[i], n).value
    ensures r.Some? ==> forall i :: 0 <= i < |r.value| ==> InRange(r.value[i], n)
  {
    ParseEach(parts, part => ParsePart(part, n))
  }

  /** Parsing one more piece extends the parsed prefix, or rejects it. */
  lemma {:induction false} ParsePartsStep(parts: seq<string>, i: int, n: int)
    requires 0 <= i < |parts|
    ensures var a := ParseParts(parts[..i], n);
      var b := ParsePart(parts[i], n);
      ParseParts(parts[..i + 1], n) == if a.Some? && b.Some? then Some(a.value + [b.value]) else None
  {
    assert parts[..i + 1][..i] == parts[..i];
    assert parts[..i + 1][i] == parts[i];
  }

  /** Everything a list of pieces selects. */
  function CoveredAll(ps: seq<Part>): set<int> {
    if ps == [] then {} else CoveredAll(ps[..|ps| - 1]) + Covered(ps[|ps| - 1])
  }

  lemma {:induction false} CoveredAllInRange(ps: seq<Part>, n: int)
    requires forall i :: 0 <= i < |ps| ==> InRange(ps[i], n)
    ensures forall x :: x in CoveredAll(ps) ==> 1 <= x <= n
  {
    if ps != [] {
      CoveredAllInRange(ps[..|ps| - 1], n);
    }
  }

  predicate StrictlyIncreasing(s: seq<int>) {
    forall i, j :: 0 <= i < j < |s| ==> s[i] < s[j]
  }

  /** `sorted(S)` for the members of `S` in 1..m. */
  function Ascending(S: set<int>, m: int): (r: seq<int>)
    ensures StrictlyIncreasing(r)
    ensures forall i :: 0 <= i < |r| ==> 1 <= r[i] <= m && r[i] in S
    ensures forall x :: x in S && 1 <= x <= m ==> x in r
    decreases m
  {
    if m < 1 then [] else Ascending(S, m - 1) + (if m in S then [m] else [])
  }

  /** `range(1, n + 1)`. */
  function Interval(n: nat): (r: seq<int>)
    ensures |r| == n && StrictlyIncreasing(r)
    ensures forall i :: 0 <= i < n ==> r[i] == i + 1
  {
    seq(n, i requires 0 <= i < n => i + 1)
  }

  const AllShort := "a"
  const AllWord := "all"
  const AllStar := "*"

  predicate MeansAll(t: string) {
    t == AllShort || t == AllWord || t == AllStar
  }

  /** What one answer selects among `n` records: `None` when it is rejected,
      otherwise the chosen 1-based indices in increasing order. */
  function Select(raw: string, n: nat): (r: Option<seq<int>>)
    ensures r.Some? ==> StrictlyIncreasing(r.value)
    ensures r.Some? ==> forall i :: 0 <= i < |r.value| ==> 1 <= r.value[i] <= n
  {
    SelectAnswer(Lower(Strip(raw)), n)
  }

  /** What a trimmed, lower-cased answer selects. */
  function SelectAnswer(t: string, n: nat): (r: Option<seq<int>>)
    ensures r.Some? ==> StrictlyIncreasing(r.value)
    ensures r.Some? ==> forall i :: 0 <= i < |r.value| ==> 1 <= r.value[i] <= n
  {
    if MeansAll(t) then Some(Interval(n))
    else
      match ParseParts(Split(t, ','), n)
      case None => None
      case Some(ps) => Some(Ascending(CoveredAll(ps), n))
  }

  /** "a", "all" and "*", in any case and with surrounding blanks, select
      every record. */
  lemma {:induction false} SelectAll(raw: string, n: nat)
    requires MeansAll(Lower(Strip(raw)))
    ensures Select(raw, n) == Some(Interval(n))
  {
  }

  /** Parses one answer as the prompt loop's body does: the pieces are read in
      order into a set, the first bad piece rejects the answer, and the set is
      returned sorted. */
  method PickIndices(raw: string, n: nat) returns (r: Option<seq<int>>)
    ensures r == Select(raw, n)
  {
    var t := Lower(Strip(raw));
    if MeansAll(t) {
      return Some(Interval(n));
    }
    var parts := Split(t, ',');
    var result: set<int> := {};
    ghost var ps: seq<Part> := [];
    for i := 0 to |parts|
      invariant ParseParts(parts[..i], n) == Some(ps)
      invariant result == CoveredAll(ps)
    {
      var p := ParsePart(parts[i], n);
      if p.None? {
        return None;
      }
      ParsePartsStep(parts, i, n);
      result := result + Covered(p.value);
      assert (ps + [p.value])[..|ps|] == ps;
      ps := ps + [p.value];
    }
    assert parts[..|parts|] == parts;
    return Some(Ascending(result, n));
  }

  /** Every index the answer names, and nothing else, is selected. */
  lemma {:induction false} SelectExactly(raw: string, n: nat, ps: seq<Part>)
    requires !MeansAll(Lower(Strip(raw)))
    requires ParseParts(Split(Lower(Strip(raw)), ','), n) == Some(ps)
    ensures Select(raw, n).Some?
    ensures forall x :: x in Select(raw, n).value <==> x in CoveredAll(ps)
  {
    CoveredAllInRange(ps, n);
  }

  /** A numeral is none of the words that select everything. */
  lemma {:induction false} NumeralNotAll(t: string)
    requires t != [] && IsDigit(t[0])
    ensures !MeansAll(t)
  {
    assert AllShort[0] == 'a' && AllWord[0] == 'a' && AllStar[0] == '*';
  }

  lemma {:induction false} ParsePartsSingleton(part: string, n: int)
    ensures ParsePart(part, n).None? ==> ParseParts([part], n) == None
    ensures ParsePart(part, n).Some? ==> ParseParts([part], n) == Some([ParsePart(part, n).value])
  {
    assert [part][..0] == [];
    assert ParseParts([], n) == Some([]);
    var p := ParsePart(part, n);
    if p.Some? {
      assert [] + [p.value] == [p.value];
    }
  }

  /** An answer of a single piece selects what that piece covers. */
  lemma {:induction false} AnswerOnePiece(t: string, n: nat)
    requires ',' !in t && !MeansAll(t)
    ensures ParsePart(t, n).None? ==> SelectAnswer(t, n) == None
    ensures ParsePart(t, n).Some? ==>
              SelectAnswer(t, n) == Some(Ascending(Covered(ParsePart(t, n).value), n))
  {
    SplitAbsent(t, ',');
    ParsePartsSingleton(t, n);
    var p := ParsePart(t, n);
    if p.Some? {
      assert [p.value][..0] == [];
      assert CoveredAll([p.value]) == Covered(p.value);
    }
  }

  /** An answer that is already trimmed and in lower case is taken as it is. */
  lemma {:induction false} SelectNormalised(raw: string, n: nat)
    requires raw != [] ==> !IsSpace(raw[0]) && !IsSpace(raw[|raw| - 1])
    requires forall i :: 0 <= i < |raw| ==> !IsAsciiUpper(raw[i])
    ensures Select(raw, n) == SelectAnswer(raw, n)
  {
    StripUntouched(raw);
    LowerUntouched(raw);
  }

  /** A numeral piece is an index, accepted when it is in range. */
  lemma {:induction false} ParsePartNumeral(k: nat, n: nat)
    ensures ParsePart(Decimal(k), n) == if 1 <= k <= n then Some(Single(k)) else None
  {
    var d := Decimal(k);
    assert forall i :: 0 <= i < |d| ==> IsDigit(d[i]);
    StripUntouched(d);
    ParseIntDecimal(k);
  }

  /** "lo-hi" is the range lo..hi, accepted exactly when 1 <= lo <= hi <= n. */
  lemma {:induction false} ParsePartRange(lo: nat, hi: nat, n: nat)
    ensures ParsePart(Decimal(lo) + ['-'] + Decimal(hi), n) ==
              if 1 <= lo <= hi <= n then Some(Span(lo, hi)) else None
  {
    var a := Decimal(lo);
    var b := Decimal(hi);
    var t := a + ['-'] + b;
    assert '-' !in a by {
      assert forall i :: 0 <= i < |a| ==> IsDigit(a[i]);
    }
    assert t[0] == a[0] && t[|t| - 1] == b[|b| - 1];
    StripUntouched(t);
    assert t[|a|] == '-';
    SplitOnceAt(a, '-', b);
    ParseIntDecimal(lo);
    ParseIntDecimal(hi);
  }

  /** Sorting a single positive index gives just that index, once it is in range. */
  lemma {:induction false} AscendingSingleton(k: int, m: int)
    requires 1 <= k
    ensures Ascending({k}, m) == if k <= m then [k] else []
    decreases m
  {
    if m >= 1 {
      AscendingSingleton(k, m - 1);
    }
  }


  /** A lone index in range selects exactly that record. */
  lemma {:induction false} SelectSingle(k: nat, n: nat)
    requires 1 <= k <= n
    ensures Select(Decimal(k), n) == Some([k])
  {
    var d := Decimal(k);
    NumeralNotAll(d);
    SelectNormalised(d, n);
    AnswerOnePiece(d, n);
    ParsePartNumeral(k, n);
    AscendingSingleton(k, n);
  }

  /** An index of no record (0, or beyond the last) rejects the whole answer. */
  lemma {:induction false} SelectOutOfRange(k: nat, n: nat)
    requires k < 1 || k > n
    ensures Select(Decimal(k), n) == None
  {
    var d := Decimal(k);
    NumeralNotAll(d);
    SelectNormalised(d, n);
    AnswerOnePiece(d, n);
    ParsePartNumeral(k, n);
  }

  /** The text "lo-hi": digits at both ends, no comma, no upper case. */
  lemma {:induction false} RangeText(lo: nat, hi: nat)
    ensures var t := Decimal(lo) + ['-'] + Decimal(hi);
      IsDigit(t[0]) && IsDigit(t[|t| - 1]) && ',' !in t &&
      forall i :: 0 <= i < |t| ==> !IsAsciiUpper(t[i])
  {
    var a := Decimal(lo);
    var b := Decimal(hi);
    var t := a + ['-'] + b;
    assert t[0] == a[0] && t[|t| - 1] == b[|b| - 1];
    assert forall i :: 0 <= i < |t| ==> IsDigit(t[i]) || t[i] == '-';
  }

  lemma {:induction false} SelectRangeValue(lo: nat, hi: nat, n: nat)
    requires 1 <= lo <= hi <= n
    ensures Select(Decimal(lo) + ['-'] + Decimal(hi), n) == Some(Ascending(RangeSet(lo, hi), n))
  {
    var t := Decimal(lo) + ['-'] + Decimal(hi);
    RangeText(lo, hi);
    NumeralNotAll(t);
    SelectNormalised(t, n);
    AnswerOnePiece(t, n);
    ParsePartRange(lo, hi, n);
  }

  /** A range "lo-hi" with lo < 1, hi > n or lo > hi rejects the whole answer. */
  lemma {:induction false} SelectBadRange(lo: nat, hi: nat, n: nat)
    requires !(1 <= lo <= hi <= n)
    ensures Select(Decimal(lo) + ['-'] + Decimal(hi), n) == None
  {
    var t := Decimal(lo) + ['-'] + Decimal(hi);
    RangeText(lo, hi);
    NumeralNotAll(t);
    SelectNormalised(t, n);
    AnswerOnePiece(t, n);
    ParsePartRange(lo, hi, n);
  }

  /** A range "lo-hi" within bounds selects exactly lo..hi. */
  lemma {:induction false} SelectRange(lo: nat, hi: nat, n: nat)
    requires 1 <= lo <= hi <= n
    ensures Select(Decimal(lo) + ['-'] + Decimal(hi), n).Some?
    ensures forall x :: x in Select(Decimal(lo) + ['-'] + Decimal(hi), n).value <==> lo <= x <= hi
  {
    SelectRangeValue(lo, hi, n);
    var r := Ascending(RangeSet(lo, hi), n);
    assert forall x :: x in r <==> lo <= x <= hi;
  }

  /** Two accepted pieces parse to their two parts, in order. */
  lemma {:induction false} ParsePartsPair(a: string, b: string, n: int, pa: Part, pb: Part)
    requires ParsePart(a, n) == Some(pa) && ParsePart(b, n) == Some(pb)
    ensures ParseParts([a, b], n) == Some([pa, pb])
  {
    ParseEachPair(a, b, part => ParsePart(part, n), pa, pb);
  }

  lemma {:induction false} ParseEachPair<P>(a: string, b: string, parse: string -> Option<P>, pa: P, pb: P)
    requires parse(a) == Some(pa) && parse(b) == Some(pb)
    ensures ParseEach([a, b], parse) == Some([pa, pb])
  {
    assert [a, b][..1] == [a] && [a, b][1] == b;
    assert [a][..0] == [] && [a][0] == a;
    assert ParseEach([], parse) == Some([]);
    assert [] + [pa] == [pa] && [pa] + [pb] == [pa, pb];
    assert ParseEach([a], parse) == Some([pa]);
  }



  lemma {:induction false} CoveredExample(ps: seq<Part>)
    requires ps == [Single(1), Span(3, 5)]
    ensures CoveredAll(ps) == {1, 3, 4, 5}
  {
    var first := ps[..1];
    assert first[..0] == [];
    assert CoveredAll(first) == {1};
    assert RangeSet(3, 5) == {3, 4, 5};
  }

  lemma {:induction false} AscendingExample()
    ensures Ascending({1, 3, 4, 5}, 5) == [1, 3, 4, 5]
  {
  }

  /** The prompt's own example: among five records, `1,3-5` selects the
      first, third, fourth and fifth. */
  lemma {:induction false} SelectExample(raw: string)
    requires raw == "1,3-5"
    ensures Select(raw, 5) == Some([1, 3, 4, 5])
  {
    var one := Decimal(1);
    var range := Decimal(3) + ['-'] + Decimal(5);
    ExampleText(raw, one, range);
    SelectNormalised(raw, 5);
    ParsePartNumeral(1, 5);
    ParsePartRange(3, 5, 5);
    ParsePartsPair(one, range, 5, Single(1), Span(3, 5));
    var ps := [Single(1), Span(3, 5)];
    CoveredExample(ps);
    AscendingExample();
  }

  lemma {:induction false} ExampleText(raw: string, one: string, range: string)
    requires raw == "1,3-5"
    requires one == Decimal(1) && range == Decimal(3) + ['-'] + Decimal(5)
    ensures raw != [] && !IsSpace(raw[0]) && !IsSpace(raw[|raw| - 1])
    ensures forall i :: 0 <= i < |raw| ==> !IsAsciiUpper(raw[i])
    ensures !MeansAll(raw)
    ensures Split(raw, ',') == [one, range]
  {
    NumeralNotAll(raw);
    ExampleSplit(raw, one, range);
  }

  lemma {:induction false} ExampleSplit(raw: string, one: string, range: string)
    requires raw == "1,3-5"
    requires one == Decimal(1) && range == Decimal(3) + ['-'] + Decimal(5)
    ensures Split(raw, ',') == [one, range]
  {
    assert raw == one + [','] + range;
    SplitAt(one, ',', range);
    SplitAbsent(range, ',');
  }

  /** Whitespace around a piece is ignored: `part.strip()` comes first. */
  lemma {:induction false} ParsePartPadded(w1: string, t: string, w2: string, n: int)
    requires forall i :: 0 <= i < |w1| ==> IsSpace(w1[i])
    requires forall i :: 0 <= i < |w2| ==> IsSpace(w2[i])
    requires t != [] && !IsSpace(t[0]) && !IsSpace(t[|t| - 1])
    ensures ParsePart(w1 + t + w2, n) == ParsePart(t, n)
  {
    StripPadded(w1, t, w2);
    StripUntouched(t);
  }

  /** The prompt's example typed with a space after the comma, `1, 3-5`,
      selects the same records as `1,3-5`. */
  lemma {:induction false} SpacedExample(raw: string)
    requires raw == "1, 3-5"
    ensures Select(raw, 5) == Some([1, 3, 4, 5])
  {
    var one := Decimal(1);
    var padded := [' '] + Decimal(3) + ['-'] + Decimal(5);
    SpacedShape(raw);
    SpacedSplit(raw, one, padded);
    SelectNormalised(raw, 5);
    SpacedParts(one, padded);
    var ps := [Single(1), Span(3, 5)];
    CoveredExample(ps);
    AscendingExample();
  }

  lemma {:induction false} SpacedShape(raw: string)
    requires raw == "1, 3-5"
    ensures raw != [] && !IsSpace(raw[0]) && !IsSpace(raw[|raw| - 1])
    ensures forall i :: 0 <= i < |raw| ==> !IsAsciiUpper(raw[i])
    ensures !MeansAll(raw)
  {
    NumeralNotAll(raw);
  }

  lemma {:induction false} SpacedSplit(raw: string, one: string, padded: string)
    requires raw == "1, 3-5"
    requires one == Decimal(1) && padded == [' '] + Decimal(3) + ['-'] + Decimal(5)
    ensures Split(raw, ',') == [one, padded]
  {
    assert raw == one + [','] + padded;
    SplitAt(one, ',', padded);
    SplitAbsent(padded, ',');
  }

  lemma {:induction false} SpacedParts(one: string, padded: string)
    requires one == Decimal(1) && padded == [' '] + Decimal(3) + ['-'] + Decimal(5)
    ensures ParseParts([one, padded], 5) == Some([Single(1), Span(3, 5)])
  {
    var range := Decimal(3) + ['-'] + Decimal(5);
    RangeEnds(3, 5);
    assert padded == [' '] + range;
    DigitEndsPadded(range, 5);
    ParsePartNumeral(1, 5);
    ParsePartRange(3, 5, 5);
    ParsePartsPair(one, padded, 5, Single(1), Span(3, 5));
  }

  /** The text "lo-hi" starts and ends with a digit. */
  lemma {:induction false} RangeEnds(lo: nat, hi: nat)
    ensures var range := Decimal(lo) + ['-'] + Decimal(hi);
      range != [] && IsDigit(range[0]) && IsDigit(range[|range| - 1])
  {
    var a, b := Decimal(lo), Decimal(hi);
    var range := a + ['-'] + b;
    assert range[0] == a[0] && IsDigit(a[0]);
    assert range[|range| - 1] == b[|b| - 1] && IsDigit(b[|b| - 1]);
  }

  lemma {:induction false} DigitEndsPadded(t: string, n: int)
    requires t != [] && IsDigit(t[0]) && IsDigit(t[|t| - 1])
    ensures ParsePart([' '] + t, n) == ParsePart(t, n)
  {
    assert [' '] + t == [' '] + t + [];
    ParsePartPadded([' '], t, [], n);
  }


  /** The prompt repeats until an answer is accepted; `answers` are the lines
      the user types, and `None` means they ran out before one was accepted. */
  method PickFromAnswers(answers: seq<string>, n: nat) returns (r: Option<seq<int>>)
    ensures r.None? <==> forall i :: 0 <= i < |answers| ==> Select(answers[i], n).None?
    ensures r.Some? ==> exists i :: 0 <= i < |answers| && r == Select(answers[i], n) &&
                          forall j :: 0 <= j < i ==> Select(answers[j], n).None?
  {
    for i := 0 to |answers|
      invariant forall j :: 0 <= j < i ==> Select(answers[j], n).None?
    {
      r := PickIndices(answers[i], n);
      if r.Some? {
        return;
      }
    }
    return None;
  }
}
