/** Character classes and string operations of Python's `str` and `re`, over ASCII.
    Characters outside ASCII are neither whitespace nor word characters here, and
    case mapping leaves them unchanged. */
module Text {

  /** `str.isspace()` and the regular-expression class `\s`, restricted to ASCII:
      tab, line feed, vertical tab, form feed, carriage return (9-13), the
      separators 0x1C-0x1F, and space (32). */
  predicate IsSpace(c: char) {
    9 <= c as int <= 13 || 28 <= c as int <= 32
  }

  predicate IsAsciiLower(c: char) { 'a' <= c <= 'z' }

  predicate IsAsciiUpper(c: char) { 'A' <= c <= 'Z' }

  /** The regular-expression class `\w` over ASCII: letters, digits and `_`. */
  predicate IsWordChar(c: char) {
    IsAsciiLower(c) || IsAsciiUpper(c) || '0' <= c <= '9' || c == '_'
  }

  function UpperChar(c: char): (u: char)
    ensures !IsAsciiLower(u)
    ensures IsAsciiLower(c) ==> IsAsciiUpper(u) && u as int + 32 == c as int
    ensures !IsAsciiLower(c) ==> u == c
  {
    if IsAsciiLower(c) then (c as int - 32) as char else c
  }

  function LowerChar(c: char): (l: char)
    ensures !IsAsciiUpper(l)
    ensures IsAsciiUpper(c) ==> IsAsciiLower(l) && l as int == c as int + 32
    ensures !IsAsciiUpper(c) ==> l == c
  {
    if IsAsciiUpper(c) then (c as int + 32) as char else c
  }

  /** `str.upper()`: the same length, no lower-case letter left. */
  function Upper(s: string): (r: string)
    ensures |r| == |s|
    ensures forall i :: 0 <= i < |r| ==> r[i] == UpperChar(s[i]) && !IsAsciiLower(r[i])
  {
    seq(|s|, i requires 0 <= i < |s| => UpperChar(s[i]))
  }

  /** Upper-casing introduces no character other than upper-case letters. */
  lemma {:induction false} UpperKeepsAbsent(s: string, c: char)
    requires c !in s && !IsAsciiUpper(c)
    ensures c !in Upper(s)
  {
    var r := Upper(s);
    forall i | 0 <= i < |r| ensures r[i] != c {
      assert s[i] in s;
    }
  }

  /** `str.lower()`. */
  function Lower(s: string): (r: string)
    ensures |r| == |s|
    ensures forall i :: 0 <= i < |r| ==> r[i] == LowerChar(s[i]) && !IsAsciiUpper(r[i])
  {
    seq(|s|, i requires 0 <= i < |s| => LowerChar(s[i]))
  }

  /** Removes the longest prefix of characters in the class `ws`. */
  function StripLeftBy(s: string, ws: char -> bool): (r: string)
    ensures |r| <= |s|
    ensures r != [] ==> !ws(r[0])
    ensures forall i :: 0 <= i < |s| - |r| ==> ws(s[i])
  {
    if s != [] && ws(s[0]) then StripLeftBy(s[1..], ws) else s
  }

  /** Removes the longest suffix of characters in the class `ws`. */
  function StripRightBy(s: string, ws: char -> bool): (r: string)
    ensures |r| <= |s|
    ensures r != [] ==> !ws(r[|r| - 1])
    ensures forall i :: |r| <= i < |s| ==> ws(s[i])
  {
    if s != [] && ws(s[|s| - 1]) then StripRightBy(s[..|s| - 1], ws) else s
  }

  /** What `StripLeftBy` leaves is a suffix of its argument. */
  lemma {:induction false} StripLeftBySuffix(s: string, ws: char -> bool)
    ensures StripLeftBy(s, ws) == s[|s| - |StripLeftBy(s, ws)|..]
  {
    if s != [] && ws(s[0]) {
      StripLeftBySuffix(s[1..], ws);
    }
  }

  /** What `StripRightBy` leaves is a prefix of its argument. */
  lemma {:induction false} StripRightByPrefix(s: string, ws: char -> bool)
    ensures StripRightBy(s, ws) == s[..|StripRightBy(s, ws)|]
  {
    if s != [] && ws(s[|s| - 1]) {
      StripRightByPrefix(s[..|s| - 1], ws);
    }
  }

  /** Stripping on the right keeps the first character, if any is kept. */
  lemma {:induction false} StripRightByFirst(s: string, ws: char -> bool)
    ensures StripRightBy(s, ws) != [] ==> StripRightBy(s, ws)[0] == s[0]
  {
    if s != [] && ws(s[|s| - 1]) {
      StripRightByFirst(s[..|s| - 1], ws);
    }
  }

  function StripBy(s: string, ws: char -> bool): (r: string)
    ensures r != [] ==> !ws(r[0]) && !ws(r[|r| - 1])
    ensures |r| <= |s|
  {
    var l := StripLeftBy(s, ws);
    StripRightByFirst(l, ws);
    StripRightBy(l, ws)
  }

  /** What `StripBy` leaves is a piece of its argument. */
  lemma {:induction false} StripByMembers(s: string, ws: char -> bool)
    ensures forall i :: 0 <= i < |StripBy(s, ws)| ==> StripBy(s, ws)[i] in s
  {
    var l := StripLeftBy(s, ws);
    var r := StripRightBy(l, ws);
    StripLeftBySuffix(s, ws);
    StripRightByPrefix(l, ws);
    assert forall i :: 0 <= i < |r| ==> r[i] == l[i] == s[|s| - |l| + i];
  }

  /** `str.strip()`: drops leading and trailing whitespace. */
  function Strip(s: string): (r: string)
    ensures r != [] ==> !IsSpace(r[0]) && !IsSpace(r[|r| - 1])
  {
    StripBy(s, IsSpace)
  }

  /** `StripBy` keeps one piece of its argument and drops only characters of
      the class before and after it. */
  lemma {:induction false} StripByExact(s: string, ws: char -> bool)
    ensures var r := StripBy(s, ws); var i := |s| - |StripLeftBy(s, ws)|;
      && i + |r| <= |s|
      && r == s[i..i + |r|]
      && (forall k :: 0 <= k < i ==> ws(s[k]))
      && (forall k :: i + |r| <= k < |s| ==> ws(s[k]))
  {
    var l := StripLeftBy(s, ws);
    var r := StripRightBy(l, ws);
    assert StripBy(s, ws) == r;
    StripLeftBySuffix(s, ws);
    StripRightByPrefix(l, ws);
    SliceOfSuffix(s, l, r, ws);
  }

  /** A prefix `r` of a suffix `l` of `s` is a slice of `s`; what follows
      `r` in `l` follows it in `s`. */
  lemma {:induction false} SliceOfSuffix(s: string, l: string, r: string, ws: char -> bool)
    requires |l| <= |s| && l == s[|s| - |l|..]
    requires |r| <= |l| && r == l[..|r|]
    requires forall j :: |r| <= j < |l| ==> ws(l[j])
    ensures var i := |s| - |l|; r == s[i..i + |r|] && forall k :: i + |r| <= k < |s| ==> ws(s[k])
  {
    var i := |s| - |l|;
    assert s[i..][..|r|] == s[i..i + |r|];
    forall k | i + |r| <= k < |s| ensures ws(s[k]) {
      assert s[k] == l[k - i];
    }
  }

  /** How many whitespace characters `str.strip()` drops at the front. */
  function LeadingSpaces(s: string): nat {
    |s| - |StripLeftBy(s, IsSpace)|
  }

  /** `str.strip()` removes the leading and the trailing whitespace and
      nothing else: what is left is the piece between them, which neither
      starts nor ends with whitespace. */
  lemma {:induction false} StripTrimsEnds(s: string)
    ensures var i := LeadingSpaces(s);
      && i + |Strip(s)| <= |s|
      && Strip(s) == s[i..i + |Strip(s)|]
      && (forall k :: 0 <= k < i ==> IsSpace(s[k]))
      && (forall k :: i + |Strip(s)| <= k < |s| ==> IsSpace(s[k]))
    ensures Strip(s) != [] ==> !IsSpace(Strip(s)[0]) && !IsSpace(Strip(s)[|Strip(s)| - 1])
  {
    StripByExact(s, IsSpace);
  }

  /** Replaces every maximal run of characters in the class `ws` by the single
      character `sep` (`re.sub(r"\s+", sep, s)` when `ws` is `\s`). */
  function ReplaceRuns(s: string, ws: char -> bool, sep: char): (r: string)
    ensures r == [] <==> s == []
    ensures forall i :: 0 <= i < |r| ==> r[i] == sep || !ws(r[i])
    decreases |s|
  {
    if s == [] then []
    else if ws(s[0]) then
      StripLeftBySuffix(s, ws);
      [sep] + ReplaceRuns(StripLeftBy(s, ws), ws, sep)
    else [s[0]] + ReplaceRuns(s[1..], ws, sep)
  }

  /** Every character of the result other than the separator comes from the input. */
  lemma {:induction false} ReplaceRunsMembers(s: string, ws: char -> bool, sep: char)
    ensures forall i :: 0 <= i < |ReplaceRuns(s, ws, sep)| ==>
              ReplaceRuns(s, ws, sep)[i] == sep || ReplaceRuns(s, ws, sep)[i] in s
    decreases |s|
  {
    if s != [] {
      if ws(s[0]) {
        var l := StripLeftBy(s, ws);
        StripLeftBySuffix(s, ws);
        ReplaceRunsMembers(l, ws, sep);
        forall i | 0 <= i < |l|
          ensures l[i] in s
        {
          assert l[i] == s[|s| - |l| + i];
        }
      } else {
        ReplaceRunsMembers(s[1..], ws, sep);
        forall i | 0 <= i < |s| - 1
          ensures s[1..][i] in s
        {
          assert s[1..][i] == s[i + 1];
        }
      }
    }
  }

  /** Trimming a run of the class in front of text that does not start with
      one leaves exactly that text. */
  lemma {:induction false} StripLeftByRun(w: string, b: string, ws: char -> bool)
    requires forall i :: 0 <= i < |w| ==> ws(w[i])
    requires b == [] || !ws(b[0])
    ensures StripLeftBy(w + b, ws) == b
    decreases |w|
  {
    if w == [] {
      assert w + b == b;
    } else {
      assert (w + b)[1..] == w[1..] + b;
      StripLeftByRun(w[1..], b, ws);
    }
  }

  /** Trimming a run of the class behind text that does not end with one
      leaves exactly that text. */
  lemma {:induction false} StripRightByRun(b: string, w: string, ws: char -> bool)
    requires forall i :: 0 <= i < |w| ==> ws(w[i])
    requires b == [] || !ws(b[|b| - 1])
    ensures StripRightBy(b + w, ws) == b
    decreases |w|
  {
    if w == [] {
      assert b + w == b;
    } else {
      assert (b + w)[..|b + w| - 1] == b + w[..|w| - 1];
      StripRightByRun(b, w[..|w| - 1], ws);
    }
  }

  /** `str.strip()` removes whitespace padding around text whose own ends
      are not whitespace, and nothing else. */
  lemma {:induction false} StripPadded(w1: string, t: string, w2: string)
    requires forall i :: 0 <= i < |w1| ==> IsSpace(w1[i])
    requires forall i :: 0 <= i < |w2| ==> IsSpace(w2[i])
    requires t != [] && !IsSpace(t[0]) && !IsSpace(t[|t| - 1])
    ensures Strip(w1 + t + w2) == t
  {
    assert w1 + t + w2 == w1 + (t + w2);
    StripLeftByRun(w1, t + w2, IsSpace);
    StripRightByRun(t, w2, IsSpace);
  }

  /** Trimming on the left never reaches past a character outside the class. */
  lemma {:induction false} StripLeftByAppend(a: string, t: string, ws: char -> bool)
    requires a != [] && !ws(a[|a| - 1])
    ensures StripLeftBy(a + t, ws) == StripLeftBy(a, ws) + t
    decreases |a|
  {
    if ws(a[0]) {
      assert (a + t)[1..] == a[1..] + t;
      StripLeftByAppend(a[1..], t, ws);
    }
  }

  /** A maximal run of the class becomes exactly one separator, and the text
      on either side is handled on its own. */
  lemma {:induction false} ReplaceRunsJoin(a: string, w: string, b: string, ws: char -> bool, sep: char)
    requires a == [] || !ws(a[|a| - 1])
    requires w != [] && forall i :: 0 <= i < |w| ==> ws(w[i])
    requires b == [] || !ws(b[0])
    ensures ReplaceRuns(a + w + b, ws, sep) == ReplaceRuns(a, ws, sep) + [sep] + ReplaceRuns(b, ws, sep)
    decreases |a|, 1
  {
    if a == [] {
      calc {
        ReplaceRuns(a + w + b, ws, sep);
        { assert a + w + b == w + b; }
        ReplaceRuns(w + b, ws, sep);
        { ReplaceRunsRunStep(w + b, ws, sep); StripLeftByRun(w, b, ws); }
        [sep] + ReplaceRuns(b, ws, sep);
        { assert ReplaceRuns(a, ws, sep) == []; }
        ReplaceRuns(a, ws, sep) + [sep] + ReplaceRuns(b, ws, sep);
      }
    } else if ws(a[0]) {
      ReplaceRunsJoinRun(a, w, b, ws, sep);
    } else {
      ReplaceRunsJoinKeep(a, w, b, ws, sep);
    }
  }

  /** The case of `ReplaceRunsJoin` where `a` starts outside the class. */
  lemma {:induction false} ReplaceRunsJoinKeep(a: string, w: string, b: string, ws: char -> bool, sep: char)
    requires a != [] && !ws(a[0]) && !ws(a[|a| - 1])
    requires w != [] && forall i :: 0 <= i < |w| ==> ws(w[i])
    requires b == [] || !ws(b[0])
    ensures ReplaceRuns(a + w + b, ws, sep) == ReplaceRuns(a, ws, sep) + [sep] + ReplaceRuns(b, ws, sep)
    decreases |a|, 0
  {
    calc {
      ReplaceRuns(a + w + b, ws, sep);
      { ReplaceRunsKeepStep(a + w + b, ws, sep);
        assert (a + w + b)[0] == a[0] && (a + w + b)[1..] == a[1..] + w + b; }
      [a[0]] + ReplaceRuns(a[1..] + w + b, ws, sep);
      { ReplaceRunsJoin(a[1..], w, b, ws, sep); }
      [a[0]] + (ReplaceRuns(a[1..], ws, sep) + [sep] + ReplaceRuns(b, ws, sep));
      { ReplaceRunsKeepStep(a, ws, sep); }
      ReplaceRuns(a, ws, sep) + [sep] + ReplaceRuns(b, ws, sep);
    }
  }

  /** A character outside the class is kept in front of the rest. */
  lemma {:induction false} ReplaceRunsKeepStep(s: string, ws: char -> bool, sep: char)
    requires s != [] && !ws(s[0])
    ensures ReplaceRuns(s, ws, sep) == [s[0]] + ReplaceRuns(s[1..], ws, sep)
  {
  }

  /** The case of `ReplaceRunsJoin` where `a` starts with a run of its own. */
  lemma {:induction false} ReplaceRunsJoinRun(a: string, w: string, b: string, ws: char -> bool, sep: char)
    requires a != [] && ws(a[0]) && !ws(a[|a| - 1])
    requires w != [] && forall i :: 0 <= i < |w| ==> ws(w[i])
    requires b == [] || !ws(b[0])
    ensures ReplaceRuns(a + w + b, ws, sep) == ReplaceRuns(a, ws, sep) + [sep] + ReplaceRuns(b, ws, sep)
    decreases |a|, 0
  {
    var a' := StripLeftBy(a, ws);
    calc {
      ReplaceRuns(a + w + b, ws, sep);
      { assert a + w + b == a + (w + b); }
      ReplaceRuns(a + (w + b), ws, sep);
      { ReplaceRunsRunStep(a + (w + b), ws, sep); StripLeftByJoin(a, w + b, ws); }
      [sep] + ReplaceRuns(a' + (w + b), ws, sep);
      { assert a' + (w + b) == a' + w + b; }
      [sep] + ReplaceRuns(a' + w + b, ws, sep);
      { StripLeftByJoin(a, w + b, ws); ReplaceRunsJoin(a', w, b, ws, sep); }
      [sep] + (ReplaceRuns(a', ws, sep) + [sep] + ReplaceRuns(b, ws, sep));
      { ReplaceRunsRunStep(a, ws, sep); }
      ReplaceRuns(a, ws, sep) + [sep] + ReplaceRuns(b, ws, sep);
    }
  }

  /** Stripping a leading run from `a + t` strips it from `a` alone, and keeps `a`'s last character. */
  lemma {:induction false} StripLeftByJoin(a: string, t: string, ws: char -> bool)
    requires a != [] && !ws(a[|a| - 1])
    ensures var a' := StripLeftBy(a, ws); a' != [] && !ws(a'[|a'| - 1]) && StripLeftBy(a + t, ws) == a' + t
  {
    var a' := StripLeftBy(a, ws);
    StripLeftBySuffix(a, ws);
    assert a' != [] && a'[|a'| - 1] == a[|a| - 1];
    StripLeftByAppend(a, t, ws);
  }

  /** A leading run becomes one separator in front of the rest. */
  lemma {:induction false} ReplaceRunsRunStep(s: string, ws: char -> bool, sep: char)
    requires s != [] && ws(s[0])
    ensures ReplaceRuns(s, ws, sep) == [sep] + ReplaceRuns(StripLeftBy(s, ws), ws, sep)
  {
  }


  /** Two pieces without characters of the class, around one run of it,
      come out joined by one separator. */
  lemma {:induction false} ReplaceRunsJoinPlain(a: string, w: string, b: string, ws: char -> bool, sep: char)
    requires forall i :: 0 <= i < |a| ==> !ws(a[i])
    requires w != [] && forall i :: 0 <= i < |w| ==> ws(w[i])
    requires forall i :: 0 <= i < |b| ==> !ws(b[i])
    ensures ReplaceRuns(a + w + b, ws, sep) == a + [sep] + b
  {
    ReplaceRunsJoin(a, w, b, ws, sep);
    ReplaceRunsNoRun(a, ws, sep);
    ReplaceRunsNoRun(b, ws, sep);
  }

  /** A string without characters of the class has no run to replace. */
  lemma {:induction false} ReplaceRunsNoRun(s: string, ws: char -> bool, sep: char)
    requires forall i :: 0 <= i < |s| ==> !ws(s[i])
    ensures ReplaceRuns(s, ws, sep) == s
    decreases |s|
  {
    if s != [] {
      ReplaceRunsNoRun(s[1..], ws, sep);
    }
  }

  /** The pieces of a `str.split(c)`, glued back with `c` between them. */
  function Join(parts: seq<string>, c: char): string
    requires |parts| >= 1
  {
    if |parts| == 1 then parts[0] else parts[0] + [c] + Join(parts[1..], c)
  }

  /** `str.split(c)`: the maximal pieces of `s` between occurrences of `c`; an
      empty string gives one empty piece. */
  function Split(s: string, c: char): (parts: seq<string>)
    ensures |parts| >= 1
    ensures forall i :: 0 <= i < |parts| ==> c !in parts[i]
    ensures Join(parts, c) == s
  {
    if s == [] then [[]]
    else
      var rest := Split(s[1..], c);
      if s[0] == c then
        assert ([[]] + rest)[1..] == rest;
        [[]] + rest
      else
        var parts := [[s[0]] + rest[0]] + rest[1..];
        assert |parts| > 1 ==> parts[1..] == rest[1..] && Join(rest, c) == rest[0] + [c] + Join(rest[1..], c);
        parts
  }

  /** `s.startswith(prefix)`. */
  predicate StartsWith(s: string, prefix: string) {
    |prefix| <= |s| && s[..|prefix|] == prefix
  }

  /** A string whose ends are not whitespace is left alone by `Strip`. */
  lemma {:induction false} StripUntouched(s: string)
    requires s != [] ==> !IsSpace(s[0]) && !IsSpace(s[|s| - 1])
    ensures Strip(s) == s
  {
    if s != [] {
      assert StripLeftBy(s, IsSpace) == s;
      assert StripRightBy(s, IsSpace) == s;
    }
  }

  /** Lower-casing leaves a string without upper-case letters unchanged. */
  lemma {:induction false} LowerUntouched(s: string)
    requires forall i :: 0 <= i < |s| ==> !IsAsciiUpper(s[i])
    ensures Lower(s) == s
  {
    assert forall i :: 0 <= i < |s| ==> Lower(s)[i] == s[i];
  }

  /** Lower-casing distributes over concatenation. */
  lemma {:induction false} LowerAppend(a: string, b: string)
    ensures Lower(a + b) == Lower(a) + Lower(b)
  {
    assert forall i :: 0 <= i < |a + b| ==> Lower(a + b)[i] == (Lower(a) + Lower(b))[i];
  }

  /** Upper-casing forgets an earlier lower-casing. */
  lemma {:induction false} UpperOfLower(s: string)
    ensures Upper(Lower(s)) == Upper(s)
  {
    assert forall i :: 0 <= i < |s| ==> Upper(Lower(s))[i] == Upper(s)[i];
  }

  /** The first piece of a split ends at the first separator. */
  lemma {:induction false} SplitAt(a: string, c: char, b: string)
    requires c !in a
    ensures Split(a + [c] + b, c) == [a] + Split(b, c)
    decreases |a|
  {
    if a == [] {
      assert a + [c] + b == [c] + b;
      assert ([c] + b)[1..] == b;
    } else {
      assert (a + [c] + b)[1..] == a[1..] + [c] + b;
      SplitAt(a[1..], c, b);
      assert [a[0]] + a[1..] == a;
    }
  }

  /** Splitting on a character that does not occur gives the whole string. */
  lemma {:induction false} SplitAbsent(s: string, c: char)
    requires c !in s
    ensures Split(s, c) == [s]
  {
    if s != [] {
      SplitAbsent(s[1..], c);
    }
  }
}
