/** What happens to the records once the results page has been read: the
    exam-type filter, the user's choice, grouping by course, and the
    per-course download loop with its optional merge. The network fetch is
    a parameter `fetch(url, dest)` that says whether saving `url` to `dest`
    succeeded; paths are relative to the download directory. */
module Pipeline {
  import opened Wrappers
  import opened Text
  import opened Seqs
  import opened Naming
  import opened Extraction
  import opened Selection

  /** The exam-type filter value that keeps every record. */
  const AnyExamType: string := "all"

  function HasExamType(t: string): Record -> bool {
    (rec: Record) => rec.examType == t
  }

  /** The exam-type filter: `"all"` keeps everything, any other value keeps
      the records whose exam type is exactly that text. */
  function FilterExamType(records: seq<Record>, examFilter: string): seq<Record> {
    if examFilter == AnyExamType then records else Filter(records, HasExamType(examFilter))
  }

  /** The filter keeps, in order, exactly the records of the requested type,
      each as often as it occurs. */
  lemma {:induction false} FilterExamTypeExact(records: seq<Record>, examFilter: string)
    requires examFilter != AnyExamType
    ensures forall i :: 0 <= i < |FilterExamType(records, examFilter)| ==>
              FilterExamType(records, examFilter)[i].examType == examFilter
    ensures forall i :: 0 <= i < |records| && records[i].examType == examFilter ==>
              records[i] in FilterExamType(records, examFilter)
    ensures forall x :: multiset(FilterExamType(records, examFilter))[x] ==
              if x.examType == examFilter then multiset(records)[x] else 0
    ensures Subsequence(FilterExamType(records, examFilter), records)
  {
    FilterSubsequence(records, HasExamType(examFilter));
    forall i | 0 <= i < |records| && records[i].examType == examFilter
      ensures records[i] in FilterExamType(records, examFilter)
    {
      FilterComplete(records, HasExamType(examFilter), records[i]);
    }
    forall x ensures multiset(FilterExamType(records, examFilter))[x] ==
                     if x.examType == examFilter then multiset(records)[x] else 0
    {
      FilterMultiset(records, HasExamType(examFilter), x);
    }
  }

  /** `[records[i - 1] for i in idxs]`. */
  function Choose(records: seq<Record>, idxs: seq<int>): (chosen: seq<Record>)
    requires forall i :: 0 <= i < |idxs| ==> 1 <= idxs[i] <= |records|
  {
    seq(|idxs|, i requires 0 <= i < |idxs| => records[idxs[i] - 1])
  }

  /** Choosing every index, as the non-interactive mode does, keeps every
      record in order. */
  lemma {:induction false} ChooseAll(records: seq<Record>)
    ensures Choose(records, Interval(|records|)) == records
  {
  }

  const KeySeparator: string := "__"

  /** The course directory a record belongs to: its code, `__`, and its
      sanitised course name. */
  function GroupKey(rec: Record): string {
    rec.courseCode + KeySeparator + NormalizeFilename(rec.courseName)
  }

  predicate IsLinked(rec: Record) {
    rec.downloadHref != []
  }

  /** The number of chosen records that offer a file. */
  function Total(chosen: seq<Record>): (n: nat)
    ensures n <= |chosen|
    ensures n == 0 <==> forall i :: 0 <= i < |chosen| ==> !IsLinked(chosen[i])
    ensures n == |chosen| <==> forall i :: 0 <= i < |chosen| ==> IsLinked(chosen[i])
  {
    FilterExtremes(chosen, IsLinked);
    |Filter(chosen, IsLinked)|
  }

  const RootUrl: string := "https://cl.thapar.edu"
  const Slash: string := "/"

  predicate IsSlash(c: char) { c == '/' }

  /** A link starting with `/` is taken relative to the portal's root URL
      (with any trailing `/` of the root removed); others are used as they are. */
  function ResolveHref(href: string): string {
    if StartsWith(href, Slash) then StripRightBy(RootUrl, IsSlash) + href else href
  }

  /** A site-relative link is prefixed with the root URL; any other link is
      left alone; resolving twice changes nothing. */
  lemma {:induction false} ResolveHrefProperties(href: string)
    ensures StartsWith(href, Slash) ==> ResolveHref(href) == RootUrl + href
    ensures !StartsWith(href, Slash) ==> ResolveHref(href) == href
    ensures ResolveHref(ResolveHref(href)) == ResolveHref(href)
  {
    assert RootUrl[|RootUrl| - 1] == 'u';
    assert StripRightBy(RootUrl, IsSlash) == RootUrl;
    if StartsWith(href, Slash) {
      assert (RootUrl + href)[0] == 'h';
    }
  }

  const FieldSeparator: string := "_"
  const PdfExtension: string := ".pdf"
  const MergedSuffix: string := "_merged.pdf"

  /** `code_name_year_semester_type.pdf`, the name being sanitised. */
  function FileName(rec: Record): string {
    rec.courseCode + FieldSeparator + NormalizeFilename(rec.courseName) + FieldSeparator +
    rec.year + FieldSeparator + rec.semester + FieldSeparator + rec.examType + PdfExtension
  }

  /** Where a record's file is saved: its file name inside the course
      directory `key`. */
  function SavedAs(key: string): Record -> string {
    (rec: Record) => key + Slash + FileName(rec)
  }

  /** The merged file of a course, inside its course directory. */
  function MergedPath(key: string): string {
    key + Slash + key + MergedSuffix
  }

  /** Neither the course directory nor the file name adds a directory level
      beyond what the portal's own cell texts contain. */
  lemma {:induction false} DestPathOneLevel(rec: Record)
    requires '/' !in rec.courseCode + rec.year + rec.semester + rec.examType
    ensures '/' !in GroupKey(rec) && '/' !in FileName(rec)
  {
    var n := NormalizeFilename(rec.courseName);
    assert '/' !in n by {
      forall i | 0 <= i < |n| ensures n[i] != '/' {
        assert IsSafeChar(n[i]);
      }
    }
    assert forall c :: c in rec.courseCode ==> c in rec.courseCode + rec.year + rec.semester + rec.examType;
    assert forall c :: c in rec.year ==> c in rec.courseCode + rec.year + rec.semester + rec.examType;
    assert forall c :: c in rec.semester ==> c in rec.courseCode + rec.year + rec.semester + rec.examType;
    assert forall c :: c in rec.examType ==> c in rec.courseCode + rec.year + rec.semester + rec.examType;
  }

  /** A record of course directory `key` whose file was saved: it has a link,
      and fetching the resolved link into its destination succeeded. */
  function FetchedAs(key: string, fetch: (string, string) -> bool): Record -> bool {
    (rec: Record) => IsLinked(rec) && fetch(ResolveHref(rec.downloadHref), SavedAs(key)(rec))
  }

  /** A chosen record whose file was saved into its own course directory,
      the directory of a record being `key(rec)`. */
  function FetchedBy(key: Record -> string, fetch: (string, string) -> bool): Record -> bool {
    (rec: Record) => FetchedAs(key(rec), fetch)(rec)
  }

  /** What this run records for one course directory: the paths it saved
      to, in order (the same path twice when two records share a file
      name), and the merged file when one was written. */
  datatype GroupOutcome = GroupOutcome(key: string, saved: seq<string>, merged: Option<string>)

  /** The paths of this run that remain listed once merging has deleted
      the individual files. */
  function KeptFiles(o: GroupOutcome): seq<string> {
    match o.merged
    case Some(m) => [m]
    case None => o.saved
  }

  /** The outcome of course `key`, whose records are `group`: the paths of the
      records fetched, and a merge when it was asked for and more than one
      file was saved. */
  function OutcomeOf(key: string, group: seq<Record>, merge: bool, fetch: (string, string) -> bool): GroupOutcome {
    var saved := Map(Filter(group, FetchedAs(key, fetch)), SavedAs(key));
    GroupOutcome(key, saved, if merge && |saved| > 1 then Some(MergedPath(key)) else None)
  }

  /** Of the paths this run saved to in a course directory, only the merged
      file remains when merging was asked for and at least two files were
      saved; otherwise every saved path remains, so a course with a single
      file is never merged and never loses it. */
  lemma {:induction false} KeptFilesOfGroup(key: string, group: seq<Record>, merge: bool, fetch: (string, string) -> bool)
    ensures var fetched := Filter(group, FetchedAs(key, fetch));
      KeptFiles(OutcomeOf(key, group, merge, fetch)) ==
        if merge && |fetched| >= 2 then [MergedPath(key)] else Map(fetched, SavedAs(key))
    ensures var fetched := Filter(group, FetchedAs(key, fetch));
      |fetched| <= 1 ==> KeptFiles(OutcomeOf(key, group, merge, fetch)) == Map(fetched, SavedAs(key))
  {
  }

  /** The outcomes of the course directories `ks`, in order, each group
      being the chosen records of that directory. */
  function OutcomesOf(ks: seq<string>, chosen: seq<Record>, key: Record -> string, merge: bool,
                      fetch: (string, string) -> bool): (os: seq<GroupOutcome>)
    ensures |os| == |ks|
    ensures forall j :: 0 <= j < |ks| ==> os[j].key == ks[j]
  {
    if ks == [] then []
    else
      var k := ks[|ks| - 1];
      OutcomesOf(ks[..|ks| - 1], chosen, key, merge, fetch) + [OutcomeOf(k, Filter(chosen, KeyIs(key, k)), merge, fetch)]
  }

  /** Groups records by `key`, keeping the order in which each key first
      appears and, within a group, the order of the records (a dictionary
      filled with `setdefault(key, []).append`). */
  method GroupRecords(chosen: seq<Record>, key: Record -> string)
    returns (keys: seq<string>, groups: map<string, seq<Record>>)
    ensures keys == Dedup(Map(chosen, key))
    ensures forall k :: k in groups <==> k in keys
    ensures forall k :: k in groups ==> groups[k] == Filter(chosen, KeyIs(key, k))
  {
    keys := [];
    groups := map[];
    for i := 0 to |chosen|
      invariant keys == Dedup(Map(chosen[..i], key))
      invariant forall k :: k in groups <==> k in keys
      invariant forall k :: k in groups ==> groups[k] == Filter(chosen[..i], KeyIs(key, k))
    {
      var rec := chosen[i];
      var k := key(rec);
      assert chosen[..i + 1][..i] == chosen[..i];
      MapInit(chosen[..i + 1], key);
      if k in groups {
        groups := groups[k := groups[k] + [rec]];
      } else {
        DedupMembers(Map(chosen[..i], key), k);
        FilterNone(chosen[..i], KeyIs(key, k));
        keys := keys + [k];
        groups := groups[k := [rec]];
      }
    }
    assert chosen[..|chosen|] == chosen;
  }

  /** Downloads the records of one course directory in order, skipping those
      without a link, and merges when asked to and more than one file was saved. */
  method DownloadGroup(key: string, group: seq<Record>, merge: bool, fetch: (string, string) -> bool)
    returns (outcome: GroupOutcome)
    ensures outcome == OutcomeOf(key, group, merge, fetch)
    ensures |outcome.saved| == |Filter(group, FetchedAs(key, fetch))|
  {
    var pdfPaths: seq<string> := [];
    for j := 0 to |group|
      invariant pdfPaths == Map(Filter(group[..j], FetchedAs(key, fetch)), SavedAs(key))
    {
      var rec := group[j];
      assert group[..j + 1][..j] == group[..j];
      var href := rec.downloadHref;
      if href == [] {
        continue;
      }
      if StartsWith(href, Slash) {
        href := StripRightBy(RootUrl, IsSlash) + href;
      }
      var dest := key + Slash + FileName(rec);
      if fetch(href, dest) {
        MapInit(Filter(group[..j + 1], FetchedAs(key, fetch)), SavedAs(key));
        pdfPaths := pdfPaths + [dest];
      }
    }
    assert group[..|group|] == group;
    var merged: Option<string> := None;
    if merge && |pdfPaths| > 1 {
      merged := Some(key + Slash + key + MergedSuffix);
    }
    outcome := GroupOutcome(key, pdfPaths, merged);
  }

  /** Inside a course directory, saving under the directory's key is saving
      under the record's own key. */
  lemma {:induction false} GroupFetchedAgree(chosen: seq<Record>, key: Record -> string, k: string, fetch: (string, string) -> bool)
    ensures var g := Filter(chosen, KeyIs(key, k));
      Filter(g, FetchedAs(k, fetch)) == Filter(g, FetchedBy(key, fetch))
  {
    var g := Filter(chosen, KeyIs(key, k));
    assert forall i :: 0 <= i < |g| ==> key(g[i]) == k;
    FilterCongruent(g, FetchedAs(k, fetch), FetchedBy(key, fetch));
  }

  /** Only records with a link are fetched, so at most `Total` files are
      saved, and exactly `Total` when every link was fetched. */
  lemma {:induction false} FetchedWithinTotal(chosen: seq<Record>, key: Record -> string, fetch: (string, string) -> bool)
    ensures |Filter(chosen, FetchedBy(key, fetch))| <= Total(chosen)
    ensures |Filter(chosen, FetchedBy(key, fetch))| == Total(chosen) <==>
              forall i :: 0 <= i < |chosen| ==> (IsLinked(chosen[i]) ==> FetchedBy(key, fetch)(chosen[i]))
  {
    forall x | FetchedBy(key, fetch)(x) ensures IsLinked(x) {
      assert FetchedAs(key(x), fetch)(x);
    }
    FilterWeaker(chosen, FetchedBy(key, fetch), IsLinked);
  }

  /** Groups the chosen records by course directory (`key`) and downloads
      each group in turn. `total` counts the chosen records with a link and
      `done` the files saved (`FetchedWithinTotal` compares the two). */
  method DownloadAll(chosen: seq<Record>, key: Record -> string, merge: bool, fetch: (string, string) -> bool)
    returns (keys: seq<string>, outcomes: seq<GroupOutcome>, total: nat, done: nat)
    ensures keys == Dedup(Map(chosen, key))
    ensures outcomes == OutcomesOf(keys, chosen, key, merge, fetch)
    ensures total == Total(chosen)
    ensures done == |Filter(chosen, FetchedBy(key, fetch))|
  {
    var groups;
    keys, groups := GroupRecords(chosen, key);
    total := |Filter(chosen, IsLinked)|;
    outcomes := [];
    done := 0;
    for i := 0 to |keys|
      invariant outcomes == OutcomesOf(keys[..i], chosen, key, merge, fetch)
      invariant done == GroupedCount(keys[..i], chosen, key, FetchedBy(key, fetch))
    {
      var k := keys[i];
      var o := DownloadGroup(k, groups[k], merge, fetch);
      GroupFetchedAgree(chosen, key, k, fetch);
      assert keys[..i + 1][..i] == keys[..i];
      outcomes := outcomes + [o];
      done := done + |o.saved|;
    }
    assert keys[..|keys|] == keys;
    GroupedCountPartition(chosen, key, FetchedBy(key, fetch));
  }
}
