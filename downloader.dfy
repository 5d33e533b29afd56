/** One run of the downloader, from the command line to the download report.
    The browser is replaced by what it would show: the elements each input
    locator finds, the page at each readiness poll, and the results page
    that is finally read. The user's typed answers are a `Answers` value,
    and the network fetch is the parameter `fetch(url, dest)`. */
module Downloader {
  import opened Wrappers
  import opened Text
  import opened Seqs
  import opened Naming
  import opened Extraction
  import opened Navigation
  import opened Selection
  import opened Pipeline

  /** The command line after the program name: `option value [merge [examType]]`. */
  datatype Invocation = Invocation(batch: bool, option: string, value: string, mergePdfs: bool, examFilter: string)

  const TrueWord: string := "true"

  /** With fewer than two arguments the run is interactive, does not merge
      unless asked and keeps every exam type. */
  function ParseArgs(args: seq<string>): (inv: Invocation)
    ensures inv.batch <==> |args| >= 2
    ensures inv.batch ==> inv.option == args[0] && inv.value == args[1]
    ensures !inv.batch ==> inv.option == []
    ensures inv.mergePdfs <==> |args| >= 3 && Lower(args[2]) == TrueWord
    ensures inv.mergePdfs ==> inv.batch
    ensures |args| >= 4 ==> inv.examFilter == args[3]
    ensures inv.examFilter != AnyExamType ==> |args| >= 4 && inv.examFilter == args[3]
  {
    if |args| < 2 then Invocation(false, [], [], false, AnyExamType)
    else Invocation(true, args[0], args[1], |args| >= 3 && Lower(args[2]) == TrueWord,
                    if |args| >= 4 then args[3] else AnyExamType)
  }

  /** What the user types when asked: the search kind, the code or name, the
      successive answers to the selection prompt, and the merge answer. */
  datatype Answers = Answers(kind: string, text: string, picks: seq<string>, merge: string)

  /** The query comes from the command line when an option was given (a
      non-empty first argument), otherwise from the typed answers, whose
      search kind is trimmed first. */
  function QueryOf(inv: Invocation, answers: Answers): (q: SearchQuery)
    ensures q.ByCode? <==> (if inv.option != [] then inv.option else Strip(answers.kind)) != "2"
    ensures var raw := if inv.option != [] then inv.value else answers.text;
      q.ByCode? ==> q.code == NormalizeCourseCode(Strip(raw))
    ensures var raw := if inv.option != [] then inv.value else answers.text;
      q.ByName? ==> q.text == Strip(raw)
    ensures q.ByCode? ==> NormalizeCourseCode(q.code) == q.code
  {
    var q := if inv.option != [] then MakeQuery(inv.option, inv.value)
             else MakeQuery(Strip(answers.kind), answers.text);
    if q.ByCode? then
      var raw := if inv.option != [] then inv.value else answers.text;
      NormalizeCourseCodeIdempotent(Strip(raw));
      q
    else q
  }

  const YesWord: string := "y"

  /** Merging is asked for by the `true` flag in batch mode, and by the
      answer `y` (after trimming and lower-casing) otherwise. */
  function MergeRequested(inv: Invocation, answers: Answers): bool {
    if inv.batch then inv.mergePdfs else Lower(Strip(answers.merge)) == YesWord
  }

  /** How a run ends. `Finished` keeps the records offered for selection,
      those chosen, and what the download loop reports. */
  datatype RunResult =
    | InputMissing
    | TimedOut
    | NoResults
    | NoMatchingExamType
    | NoSelection(offered: nat)
    | Finished(records: seq<Record>, chosen: seq<Record>, merge: bool, keys: seq<string>,
               outcomes: seq<GroupOutcome>, total: nat, done: nat)

  /** The locator strategies for the input the query needs. */
  function InputsFor<E>(q: SearchQuery, codeInputs: seq<seq<E>>, nameInputs: seq<seq<E>>): seq<seq<E>> {
    if q.ByCode? then codeInputs else nameInputs
  }

  /** Reads the results page and applies the exam-type filter. `found` is
      false when no table yields a row; otherwise `records` are the filtered
      records, empty only when the filter dropped them all. */
  method OfferedRecords(page: seq<Table>, examFilter: string) returns (found: bool, records: seq<Record>)
    ensures !found <==> forall k :: 0 <= k < |page| ==> TableRows(page[k]) == []
    ensures found ==> exists k :: FirstGoodTable(page, k) &&
                        records == FilterExamType(Map(TableRows(page[k]), RecordOf), examFilter)
    ensures !found ==> records == []
    ensures found && examFilter == AnyExamType ==> records != []
    ensures examFilter != AnyExamType ==> forall i :: 0 <= i < |records| ==> records[i].examType == examFilter
  {
    var rows;
    records, rows := ExtractRecords(page);
    found := rows != [];
    if found && examFilter != AnyExamType {
      FilterExamTypeExact(records, examFilter);
      records := FilterExamType(records, examFilter);
    }
  }

  /** Picks the records to download and the merge decision: everything in
      batch mode, the first accepted answer otherwise (`None` when every
      answer was rejected). */
  method ChooseRecords(inv: Invocation, answers: Answers, records: seq<Record>)
    returns (chosen: Option<seq<Record>>, merge: bool)
    ensures chosen.None? ==>
              && !inv.batch
              && forall i :: 0 <= i < |answers.picks| ==> Select(answers.picks[i], |records|).None?
    ensures chosen.Some? && inv.batch ==> chosen.value == records
    ensures chosen.Some? && !inv.batch ==>
              exists i :: 0 <= i < |answers.picks| && Select(answers.picks[i], |records|).Some? &&
                chosen.value == Choose(records, Select(answers.picks[i], |records|).value) &&
                forall j :: 0 <= j < i ==> Select(answers.picks[j], |records|).None?
    ensures merge == MergeRequested(inv, answers)
  {
    if inv.batch {
      ChooseAll(records);
      chosen := Some(Choose(records, Interval(|records|)));
      merge := inv.mergePdfs;
    } else {
      var picked := PickFromAnswers(answers.picks, |records|);
      merge := Lower(Strip(answers.merge)) == YesWord;
      if picked.None? {
        chosen := None;
      } else {
        chosen := Some(Choose(records, picked.value));
      }
    }
  }

  /** What happens once the results have loaded: the records are read and
      filtered, chosen, and downloaded by course directory. */
  method ReadAndDownload(inv: Invocation, answers: Answers, page: seq<Table>, fetch: (string, string) -> bool)
    returns (r: RunResult)
    ensures !r.InputMissing? && !r.TimedOut?
    ensures r.NoResults? <==> forall k :: 0 <= k < |page| ==> TableRows(page[k]) == []
    ensures (r.NoMatchingExamType? || r.NoSelection? || r.Finished?) ==>
              exists k :: FirstGoodTable(page, k) &&
                var offered := FilterExamType(Map(TableRows(page[k]), RecordOf), inv.examFilter);
                && (r.NoMatchingExamType? <==> offered == [])
                && (r.NoSelection? ==> r.offered == |offered|)
                && (r.Finished? ==> r.records == offered)
    ensures r.NoMatchingExamType? ==> inv.examFilter != AnyExamType
    ensures r.NoSelection? ==>
              && !inv.batch
              && r.offered > 0
              && forall i :: 0 <= i < |answers.picks| ==> Select(answers.picks[i], r.offered).None?
    ensures r.Finished? ==> r.records != []
    ensures r.Finished? && inv.examFilter != AnyExamType ==>
              forall i :: 0 <= i < |r.records| ==> r.records[i].examType == inv.examFilter
    ensures r.Finished? && inv.batch ==> r.chosen == r.records
    ensures r.Finished? && !inv.batch ==>
              exists i :: 0 <= i < |answers.picks| && Select(answers.picks[i], |r.records|).Some? &&
                r.chosen == Choose(r.records, Select(answers.picks[i], |r.records|).value) &&
                forall j :: 0 <= j < i ==> Select(answers.picks[j], |r.records|).None?
    ensures r.Finished? ==> r.merge == MergeRequested(inv, answers)
    ensures r.Finished? ==> r.keys == Dedup(Map(r.chosen, GroupKey))
    ensures r.Finished? ==> r.outcomes == OutcomesOf(r.keys, r.chosen, GroupKey, r.merge, fetch)
    ensures r.Finished? ==> r.total == Total(r.chosen) && r.done <= r.total
    ensures r.Finished? ==> r.done == |Filter(r.chosen, FetchedBy(GroupKey, fetch))|
  {
    var found, records := OfferedRecords(page, inv.examFilter);
    if !found {
      return NoResults;
    }
    if records == [] {
      return NoMatchingExamType;
    }

    var chosen, merge := ChooseRecords(inv, answers, records);
    if chosen.None? {
      return NoSelection(|records|);
    }

    var keys, outcomes, total, done := DownloadAll(chosen.value, GroupKey, merge, fetch);
    FetchedWithinTotal(chosen.value, GroupKey, fetch);
    return Finished(records, chosen.value, merge, keys, outcomes, total, done);
  }

  /** The program's main flow. Loading the search form, the submission and
      the browser shutdown are not modelled. */
  method Run<E>(args: seq<string>, answers: Answers, codeInputs: seq<seq<E>>, nameInputs: seq<seq<E>>,
                polls: seq<Snapshot>, page: seq<Table>, fetch: (string, string) -> bool)
    returns (r: RunResult)
    ensures var q := QueryOf(ParseArgs(args), answers);
      r.InputMissing? <==> forall i :: 0 <= i < |InputsFor(q, codeInputs, nameInputs)| ==>
                             |InputsFor(q, codeInputs, nameInputs)[i]| == 0
    ensures var q := QueryOf(ParseArgs(args), answers);
      !r.InputMissing? ==>
        (r.TimedOut? <==> forall i :: 0 <= i < |polls| ==> !ResultsReady(polls[i], QueryText(q)))
    ensures !r.InputMissing? && !r.TimedOut? ==>
              (r.NoResults? <==> forall k :: 0 <= k < |page| ==> TableRows(page[k]) == [])
    ensures (r.NoMatchingExamType? || r.NoSelection? || r.Finished?) ==>
              exists k :: FirstGoodTable(page, k) &&
                var offered := FilterExamType(Map(TableRows(page[k]), RecordOf), ParseArgs(args).examFilter);
                && (r.NoMatchingExamType? <==> offered == [])
                && (r.NoSelection? ==> r.offered == |offered|)
                && (r.Finished? ==> r.records == offered)
    ensures r.NoMatchingExamType? ==> ParseArgs(args).examFilter != AnyExamType
    ensures r.NoSelection? ==>
              && !ParseArgs(args).batch
              && r.offered > 0
              && forall i :: 0 <= i < |answers.picks| ==> Select(answers.picks[i], r.offered).None?
    ensures r.Finished? ==> r.records != []
    ensures r.Finished? && ParseArgs(args).examFilter != AnyExamType ==>
              forall i :: 0 <= i < |r.records| ==> r.records[i].examType == ParseArgs(args).examFilter
    ensures r.Finished? && ParseArgs(args).batch ==> r.chosen == r.records
    ensures r.Finished? && !ParseArgs(args).batch ==>
              exists i :: 0 <= i < |answers.picks| && Select(answers.picks[i], |r.records|).Some? &&
                r.chosen == Choose(r.records, Select(answers.picks[i], |r.records|).value) &&
                forall j :: 0 <= j < i ==> Select(answers.picks[j], |r.records|).None?
    ensures r.Finished? ==> r.merge == MergeRequested(ParseArgs(args), answers)
    ensures r.Finished? ==> r.keys == Dedup(Map(r.chosen, GroupKey))
    ensures r.Finished? ==> r.outcomes == OutcomesOf(r.keys, r.chosen, GroupKey, r.merge, fetch)
    ensures r.Finished? ==> r.total == Total(r.chosen) && r.done <= r.total
    ensures r.Finished? ==> r.done == |Filter(r.chosen, FetchedBy(GroupKey, fetch))|
  {
    var inv := ParseArgs(args);
    var q := QueryOf(inv, answers);
    var codeInput := FindInput(codeInputs);
    var nameInput := FindInput(nameInputs);
    if codeInput.None? && nameInput.None? {
      return InputMissing;
    }
    var input := FindInput(InputsFor(q, codeInputs, nameInputs));
    if input.None? {
      return InputMissing;
    }

    var ready := WaitForResults(polls, QueryText(q));
    if !ready {
      return TimedOut;
    }

    r := ReadAndDownload(inv, answers, page, fetch);
  }
}
