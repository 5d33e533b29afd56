/** Course-code normalisation, file-name sanitisation and the search query. */
module Naming {
  import opened Text
  import opened Seqs

  /** `s.count(c)`. */
  function Count(s: string, c: char): (n: nat)
    ensures n <= |s|
    ensures n == 0 <==> c !in s
  {
    if s == [] then 0 else (if s[0] == c then 1 else 0) + Count(s[1..], c)
  }

  /** `s.replace(c, '')`. */
  function RemoveChar(s: string, c: char): (r: string)
    ensures c !in r
    ensures |r| == |s| - Count(s, c)
  {
    if s == [] then []
    else (if s[0] == c then [] else [s[0]]) + RemoveChar(s[1..], c)
  }

  /** Removing one character leaves the count of every other character alone. */
  lemma {:induction false} RemoveCharKeepsOthers(s: string, c: char, x: char)
    requires x != c
    ensures Count(RemoveChar(s, c), x) == Count(s, x)
  {
    if s != [] {
      RemoveCharKeepsOthers(s[1..], c, x);
      CountAppend(if s[0] == c then [] else [s[0]], RemoveChar(s[1..], c), x);
    }
  }

  lemma {:induction false} CountAppend(a: string, b: string, x: char)
    ensures Count(a + b, x) == Count(a, x) + Count(b, x)
  {
    if a != [] {
      assert (a + b)[1..] == a[1..] + b;
      CountAppend(a[1..], b, x);
    } else {
      assert a + b == b;
    }
  }

  lemma {:induction false} RemoveAbsentChar(s: string, c: char)
    requires c !in s
    ensures RemoveChar(s, c) == s
  {
    if s != [] {
      RemoveAbsentChar(s[1..], c);
    }
  }

  /** The course code as the portal stores it: hyphens and spaces removed,
      letters upper-cased; the empty code stays empty. */
  function NormalizeCourseCode(code: string): (r: string)
    ensures code == [] ==> r == []
    ensures '-' !in r && ' ' !in r
    ensures forall i :: 0 <= i < |r| ==> !IsAsciiLower(r[i])
    ensures |r| == |code| - Count(code, '-') - Count(code, ' ')
  {
    if code == [] then []
    else
      var noHyphen := RemoveChar(code, '-');
      RemoveCharKeepsOthers(code, '-', ' ');
      var kept := Kept(code);
      RemoveCharKeepsOthers(noHyphen, ' ', '-');
      UpperKeepsAbsent(kept, '-');
      UpperKeepsAbsent(kept, ' ');
      Upper(kept)
  }

  /** Normalising a normalised code changes nothing. */
  lemma {:induction false} NormalizeCourseCodeIdempotent(code: string)
    ensures NormalizeCourseCode(NormalizeCourseCode(code)) == NormalizeCourseCode(code)
  {
    var r := NormalizeCourseCode(code);
    if r != [] {
      RemoveAbsentChar(r, '-');
      RemoveAbsentChar(r, ' ');
      assert Upper(r) == r;
    }
  }

  /** The characters a code keeps: everything but hyphens and spaces. */
  function Kept(code: string): string {
    RemoveChar(RemoveChar(code, '-'), ' ')
  }

  lemma {:induction false} NormalizeCourseCodeUnfold(code: string)
    ensures NormalizeCourseCode(code) == Upper(Kept(code))
  {
  }

  lemma {:induction false} RemoveCharAppend(a: string, b: string, c: char)
    ensures RemoveChar(a + b, c) == RemoveChar(a, c) + RemoveChar(b, c)
  {
    if a == [] {
      assert a + b == b;
    } else {
      assert (a + b)[1..] == a[1..] + b;
      RemoveCharAppend(a[1..], b, c);
    }
  }

  lemma {:induction false} KeptAppend(a: string, b: string)
    ensures Kept(a + b) == Kept(a) + Kept(b)
  {
    RemoveCharAppend(a, b, '-');
    RemoveCharAppend(RemoveChar(a, '-'), RemoveChar(b, '-'), ' ');
  }

  /** A hyphen or a space anywhere in a code makes no difference:
      `"ucs-503"`, `"ucs 503"` and `"ucs503"` name the same course. */
  lemma {:induction false} NormalizeIgnoresSeparator(a: string, b: string, sep: char)
    requires sep == '-' || sep == ' '
    ensures NormalizeCourseCode(a + [sep] + b) == NormalizeCourseCode(a + b)
  {
    NormalizeCourseCodeUnfold(a + [sep] + b);
    NormalizeCourseCodeUnfold(a + b);
    assert Kept([sep]) == [] by {
      assert RemoveChar([sep], '-') == if sep == '-' then [] else [sep];
    }
    KeptAppend(a + [sep], b);
    KeptAppend(a, [sep]);
    KeptAppend(a, b);
    assert Kept(a + [sep]) == Kept(a);
  }

  /** `str.lower()` moves no character that is not a letter. */
  lemma {:induction false} RemoveCharLower(s: string, c: char)
    requires !IsAsciiUpper(c) && !IsAsciiLower(c)
    ensures RemoveChar(Lower(s), c) == Lower(RemoveChar(s, c))
  {
    if s != [] {
      var x := s[0];
      var head := if x == c then [] else [x];
      assert s == [x] + s[1..];
      LowerAppend([x], s[1..]);
      RemoveCharAppend(Lower([x]), Lower(s[1..]), c);
      RemoveCharLower(s[1..], c);
      LowerAppend(head, RemoveChar(s[1..], c));
      assert Lower([x]) == [LowerChar(x)];
      assert RemoveChar([LowerChar(x)], c) == Lower(head) by {
        assert [LowerChar(x)][1..] == [];
      }
    }
  }

  /** Letter case makes no difference: `"ucs503"` and `"UCS503"` name the same course. */
  lemma {:induction false} NormalizeIgnoresCase(s: string)
    ensures NormalizeCourseCode(Lower(s)) == NormalizeCourseCode(s)
  {
    NormalizeCourseCodeUnfold(Lower(s));
    NormalizeCourseCodeUnfold(s);
    RemoveCharLower(s, '-');
    RemoveCharLower(RemoveChar(s, '-'), ' ');
    UpperOfLower(Kept(s));
  }

  /** The characters a course code keeps. */
  predicate IsCodeChar(c: char) {
    c != '-' && c != ' '
  }

  lemma {:induction false} KeptFilter(code: string)
    ensures Kept(code) == Filter(code, IsCodeChar)
    decreases |code|
  {
    if code != [] {
      var x := code[0];
      KeptFilter(code[1..]);
      assert code == [x] + code[1..];
      KeptAppend([x], code[1..]);
      FilterAppend([x], code[1..], IsCodeChar);
      assert [x][1..] == [] && [x][..0] == [];
      assert Kept([x]) == Filter([x], IsCodeChar);
    }
  }

  /** The normalised code is, in order, every character of the code other
      than hyphens and spaces, each upper-cased. */
  lemma {:induction false} NormalizeCourseCodeReference(code: string)
    ensures NormalizeCourseCode(code) == Map(Filter(code, IsCodeChar), UpperChar)
  {
    KeptFilter(code);
    NormalizeCourseCodeUnfold(code);
  }

  /** A code that is already free of hyphens and spaces is only upper-cased. */
  lemma {:induction false} NormalizeWithoutSeparators(code: string)
    requires '-' !in code && ' ' !in code
    ensures NormalizeCourseCode(code) == Upper(code)
  {
    NormalizeCourseCodeUnfold(code);
    RemoveAbsentChar(code, '-');
    RemoveAbsentChar(code, ' ');
  }

  /** The docstring's first two examples, `'ucs503'` and `'ucs-503'`, and
      the same code written with a space, `'ucs 503'`, all give `'UCS503'`. */
  lemma {:induction false} NormalizeCourseCodeExamples(code: string)
    requires code == "ucs503" || code == "ucs-503" || code == "ucs 503"
    ensures NormalizeCourseCode(code) == "UCS503"
  {
    var a, b := "ucs", "503";
    NormalizeWithoutSeparators(a + b);
    assert Upper(a + b) == "UCS503";
    if code != a + b {
      var sep := code[3];
      assert code == a + [sep] + b;
      NormalizeIgnoresSeparator(a, b, sep);
    }
  }

  /** The docstring's third example: `'UCS-530'` gives `'UCS530'`. */
  lemma {:induction false} NormalizeCourseCodeUpperExample(code: string)
    requires code == "UCS-530"
    ensures NormalizeCourseCode(code) == "UCS530"
  {
    var a, b := "UCS", "530";
    NormalizeWithoutSeparators(a + b);
    assert Upper(a + b) == "UCS530";
    assert code == a + ['-'] + b;
    NormalizeIgnoresSeparator(a, b, '-');
  }

  /** Characters that survive the first substitution, `[\w\s.-]`. */
  predicate IsKeptChar(c: char) {
    IsWordChar(c) || IsSpace(c) || c == '.' || c == '-'
  }

  /** Characters a sanitised name may contain: `[\w.-]`, where `\w` includes `_`. */
  predicate IsSafeChar(c: char) {
    IsWordChar(c) || c == '.' || c == '-'
  }

  /** Safe characters other than the `_` that replaces whitespace. */
  predicate IsMarkChar(c: char) {
    IsSafeChar(c) && c != '_'
  }

  const Fallback: string := "file"

  /** A course name made safe for use as a file or directory name: characters
      outside `[\w\s.-]` dropped, the rest trimmed, each whitespace run turned
      into one `_`, and `"file"` when nothing is left. */
  function NormalizeFilename(t: string): (r: string)
    ensures r != []
    ensures forall i :: 0 <= i < |r| ==> IsSafeChar(r[i]) && !IsSpace(r[i])
  {
    var trimmed := Strip(Filter(t, IsKeptChar));
    StripByMembers(Filter(t, IsKeptChar), IsSpace);
    var u := ReplaceRuns(trimmed, IsSpace, '_');
    ReplaceRunsMembers(trimmed, IsSpace, '_');
    if u == [] then Fallback else u
  }

  /** A name with no safe character at all sanitises to exactly `"file"`. */
  lemma {:induction false} NormalizeFilenameFallback(t: string)
    requires forall i :: 0 <= i < |t| ==> !IsSafeChar(t[i])
    ensures NormalizeFilename(t) == Fallback
  {
    var kept := Filter(t, IsKeptChar);
    FilterMembers(t, IsKeptChar);
    assert forall i :: 0 <= i < |kept| ==> IsSpace(kept[i]);
    AllSpaceStripsToEmpty(kept);
  }

  /** A name with a safe character does not trim down to nothing. */
  lemma {:induction false} KeptNotBlank(t: string, i: nat)
    requires i < |t| && IsSafeChar(t[i])
    ensures Strip(Filter(t, IsKeptChar)) != []
  {
    var kept := Filter(t, IsKeptChar);
    FilterComplete(t, IsKeptChar, t[i]);
    if Strip(kept) == [] {
      StripEmptyAllSpace(kept);
      assert false;
    }
  }

  /** The mark characters are kept by the first substitution, are not
      whitespace, and do not include the `_` that replaces whitespace. */
  lemma {:induction false} MarkCharFacts()
    ensures forall c :: IsMarkChar(c) ==> IsKeptChar(c)
    ensures forall c :: IsSpace(c) ==> !IsMarkChar(c)
    ensures !IsMarkChar('_')
  {
  }

  /** Keeping the characters `keep` accepts, trimming `ws` and replacing runs
      of `ws` by `sep` keeps every character `p` accepts, when `p` is stricter
      than `keep` and rejects `ws` and `sep`. */
  lemma {:induction false} SanitiseKeeps(t: string, keep: char -> bool, ws: char -> bool, sep: char, p: char -> bool)
    requires forall c :: p(c) ==> keep(c)
    requires forall c :: ws(c) ==> !p(c)
    requires !p(sep)
    ensures Filter(ReplaceRuns(StripBy(Filter(t, keep), ws), ws, sep), p) == Filter(t, p)
  {
    FilterNested(t, keep, p);
    StripByKeeps(Filter(t, keep), ws, p);
    ReplaceRunsKeeps(StripBy(Filter(t, keep), ws), ws, sep, p);
  }

  /** Sanitising a name that has a safe character keeps every letter, digit,
      `.` and `-` of it, in order: only other characters are dropped and
      whitespace becomes `_`. */
  lemma {:induction false} NormalizeFilenameKeepsMarks(t: string, i: nat)
    requires i < |t| && IsSafeChar(t[i])
    ensures Filter(NormalizeFilename(t), IsMarkChar) == Filter(t, IsMarkChar)
  {
    KeptNotBlank(t, i);
    MarkCharFacts();
    SanitiseKeeps(t, IsKeptChar, IsSpace, '_', IsMarkChar);
  }

  lemma {:induction false} AllSpaceStripsToEmpty(s: string)
    requires forall i :: 0 <= i < |s| ==> IsSpace(s[i])
    ensures Strip(s) == []
  {
    StripByMembers(s, IsSpace);
  }

  lemma {:induction false} StripEmptyAllSpace(s: string)
    requires Strip(s) == []
    ensures forall i :: 0 <= i < |s| ==> IsSpace(s[i])
  {
    var l := StripLeftBy(s, IsSpace);
    StripLeftBySuffix(s, IsSpace);
    assert forall i :: |s| - |l| <= i < |s| ==> s[i] == l[i - (|s| - |l|)];
  }

  /** Filtering by `p` and then by a stronger `q` is filtering by `q`. */
  lemma {:induction false} FilterNested(s: string, p: char -> bool, q: char -> bool)
    requires forall c :: q(c) ==> p(c)
    ensures Filter(Filter(s, p), q) == Filter(s, q)
    decreases |s|
  {
    if s != [] {
      var init := s[..|s| - 1];
      FilterNested(init, p, q);
      if p(s[|s| - 1]) {
        FilterAppend(Filter(init, p), [s[|s| - 1]], q);
      }
    }
  }

  /** Characters `p` rejects, on either side of a string, leave its filter alone. */
  lemma {:induction false} FilterIgnoresPadding(w: string, s: string, p: char -> bool)
    requires forall i :: 0 <= i < |w| ==> !p(w[i])
    ensures Filter(w + s, p) == Filter(s, p)
    ensures Filter(s + w, p) == Filter(s, p)
  {
    FilterNone(w, p);
    FilterAppend(w, s, p);
    FilterAppend(s, w, p);
  }

  /** Trimming characters of a class that `p` rejects keeps every character `p` accepts. */
  lemma {:induction false} StripLeftByKeeps(s: string, ws: char -> bool, p: char -> bool)
    requires forall c :: ws(c) ==> !p(c)
    ensures Filter(StripLeftBy(s, ws), p) == Filter(s, p)
  {
    var l := StripLeftBy(s, ws);
    var w := s[..|s| - |l|];
    StripLeftBySuffix(s, ws);
    assert s == w + l;
    forall i | 0 <= i < |w|
      ensures !p(w[i])
    {
      assert w[i] == s[i] && ws(s[i]);
    }
    FilterIgnoresPadding(w, l, p);
  }

  lemma {:induction false} StripRightByKeeps(s: string, ws: char -> bool, p: char -> bool)
    requires forall c :: ws(c) ==> !p(c)
    ensures Filter(StripRightBy(s, ws), p) == Filter(s, p)
  {
    var r := StripRightBy(s, ws);
    StripRightByPrefix(s, ws);
    assert s == r + s[|r|..];
    assert forall i :: 0 <= i < |s| - |r| ==> s[|r|..][i] == s[|r| + i];
    FilterIgnoresPadding(s[|r|..], r, p);
  }

  lemma {:induction false} StripByKeeps(s: string, ws: char -> bool, p: char -> bool)
    requires forall c :: ws(c) ==> !p(c)
    ensures Filter(StripBy(s, ws), p) == Filter(s, p)
  {
    StripLeftByKeeps(s, ws, p);
    StripRightByKeeps(StripLeftBy(s, ws), ws, p);
  }

  /** Replacing runs of a class that `p` rejects by a separator `p` rejects
      keeps every character `p` accepts. */
  lemma {:induction false} ReplaceRunsKeeps(s: string, ws: char -> bool, sep: char, p: char -> bool)
    requires forall c :: ws(c) ==> !p(c)
    requires !p(sep)
    ensures Filter(ReplaceRuns(s, ws, sep), p) == Filter(s, p)
    decreases |s|, 1
  {
    if s != [] {
      if ws(s[0]) {
        ReplaceRunsKeepsRun(s, ws, sep, p);
      } else {
        var t := s[1..];
        ReplaceRunsKeeps(t, ws, sep, p);
        assert ReplaceRuns(s, ws, sep) == [s[0]] + ReplaceRuns(t, ws, sep);
        FilterAppend([s[0]], ReplaceRuns(t, ws, sep), p);
        assert s == [s[0]] + t;
        FilterAppend([s[0]], t, p);
      }
    }
  }

  /** The case of `ReplaceRunsKeeps` where `s` starts with a run. */
  lemma {:induction false} ReplaceRunsKeepsRun(s: string, ws: char -> bool, sep: char, p: char -> bool)
    requires forall c :: ws(c) ==> !p(c)
    requires !p(sep)
    requires s != [] && ws(s[0])
    ensures Filter(ReplaceRuns(s, ws, sep), p) == Filter(s, p)
    decreases |s|, 0
  {
    var l := StripLeftBy(s, ws);
    assert l == StripLeftBy(s[1..], ws);
    ReplaceRunsKeeps(l, ws, sep, p);
    StripLeftByKeeps(s, ws, p);
    assert ReplaceRuns(s, ws, sep) == [sep] + ReplaceRuns(l, ws, sep);
    FilterAppend([sep], ReplaceRuns(l, ws, sep), p);
    FilterNone([sep], p);
  }


  /** Two runs of safe characters separated by whitespace become the two
      runs joined by a single `_`, however long the whitespace run is. */
  lemma {:induction false} NormalizeFilenameJoinsWords(a: string, w: string, b: string)
    requires a != [] && forall i :: 0 <= i < |a| ==> IsSafeChar(a[i])
    requires w != [] && forall i :: 0 <= i < |w| ==> IsSpace(w[i])
    requires b != [] && forall i :: 0 <= i < |b| ==> IsSafeChar(b[i])
    ensures NormalizeFilename(a + w + b) == a + "_" + b
  {
    var s := a + w + b;
    forall i | 0 <= i < |s| ensures IsKeptChar(s[i]) {
      if i < |a| {
        assert s[i] == a[i];
      } else if i < |a| + |w| {
        assert s[i] == w[i - |a|];
      } else {
        assert s[i] == b[i - |a| - |w|];
      }
    }
    FilterAll(s, IsKeptChar);
    assert s[0] == a[0] && s[|s| - 1] == b[|b| - 1];
    assert IsSafeChar(s[0]) && IsSafeChar(s[|s| - 1]);
    StripUntouched(s);
    ReplaceRunsJoinPlain(a, w, b, IsSpace, '_');
  }

  const SampleCourseName: string := "Data Structures"

  /** `"Data Structures"` is saved as `"Data_Structures"`. */
  lemma {:induction false} NormalizeFilenameExample()
    ensures NormalizeFilename(SampleCourseName) == "Data_Structures"
  {
    var a, w, b := "Data", " ", "Structures";
    assert a + w + b == SampleCourseName;
    assert forall i :: 0 <= i < |a| ==> IsSafeChar(a[i]);
    assert forall i :: 0 <= i < |b| ==> IsSafeChar(b[i]);
    NormalizeFilenameJoinsWords(a, w, b);
  }

  /** A sanitised name is its own sanitised form. */
  lemma {:induction false} NormalizeFilenameIdempotent(t: string)
    ensures NormalizeFilename(NormalizeFilename(t)) == NormalizeFilename(t)
  {
    var r := NormalizeFilename(t);
    FilterAll(r, IsKeptChar);
    assert Strip(r) == r;
    ReplaceRunsNoRun(r, IsSpace, '_');
  }

  /** The search the user asked for: by course code or by course name. */
  datatype SearchQuery = ByCode(code: string) | ByName(text: string)

  /** Option `"2"` searches by name and anything else by code; a code is
      normalised after trimming, a name is only trimmed. */
  function MakeQuery(option: string, value: string): (q: SearchQuery)
    ensures q.ByCode? <==> option != "2"
    ensures q.ByCode? ==> q.code == NormalizeCourseCode(Strip(value))
    ensures q.ByCode? ==> '-' !in q.code && ' ' !in q.code
                          && forall i :: 0 <= i < |q.code| ==> !IsAsciiLower(q.code[i])
    ensures q.ByName? ==> q.text == Strip(value)
  {
    if option != "2" then ByCode(NormalizeCourseCode(Strip(value))) else ByName(Strip(value))
  }

  /** The text typed into the located input field. */
  function QueryText(q: SearchQuery): string {
    match q
    case ByCode(c) => c
    case ByName(t) => t
  }
}
