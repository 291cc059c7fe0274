/**
 The collection-retry driver: which runs are queried, how often, and what is on record for each
 when it stops.  The collector and what is on disk answer whatever they like.
 */
module CollectRetry {

  import opened Options

  type RunId = string

  /** A raw event as far as the policy looks at it. */
  datatype Event = Event(resolved: bool, success: bool, cpuKnown: bool)

  datatype Outcome = Outcome(run: RunId, success: bool, event: Option<Event>, attempts: nat, newlyResolved: bool)

  /** The collector's answer to the k-th query of the whole collection. */
  type Answers = nat -> Option<Event>

  type Existing = RunId -> Option<Event>

  /** The record resolved, and it is not a success still waiting for its CPU row. */
  predicate IsFinished(event: Option<Event>) {
    event.Some? && event.value.resolved && !(event.value.success && !event.value.cpuKnown)
  }

  // ---- The passes, as a function of the answers ---------------------------------------------------

  /** The runs not finished on disk, in record order. */
  function Unfinished(records: seq<RunId>, existing: Existing): seq<RunId> {
    if records == [] then []
    else
      Unfinished(records[..|records| - 1], existing) +
      (if IsFinished(existing(records[|records| - 1])) then [] else [records[|records| - 1]])
  }

  /** Of the first n runs of a pass that begins with query `from`, those its answers leave unfinished. */
  function StillPending(pending: seq<RunId>, answers: Answers, from: nat, n: nat): seq<RunId>
    requires n <= |pending|
  {
    if n == 0 then []
    else
      StillPending(pending, answers, from, n - 1) +
      (if IsFinished(answers(from + n - 1)) then [] else [pending[n - 1]])
  }

  /** The queries, pass by pass, when `more` retry passes are allowed. */
  function Passes(pending: seq<RunId>, answers: Answers, from: nat, more: nat): (passes: seq<seq<RunId>>)
    ensures passes != [] && passes[0] == pending && |passes| <= more + 1
    decreases more
  {
    var still := StillPending(pending, answers, from, |pending|);
    if still == [] || more == 0 then [pending]
    else [pending] + Passes(still, answers, from + |pending|, more - 1)
  }

  predicate Distinct(records: seq<RunId>) {
    forall i, j :: 0 <= i < j < |records| ==> records[i] != records[j]
  }

  predicate DistinctPart(part: seq<RunId>, whole: seq<RunId>) {
    |part| <= |whole| && Distinct(part) && forall r :: r in part ==> r in whole
  }

  lemma {:induction false} UnfinishedIsPart(records: seq<RunId>, existing: Existing)
    requires Distinct(records)
    ensures DistinctPart(Unfinished(records, existing), records)
    ensures forall r :: r in records ==> (r in Unfinished(records, existing) <==> !IsFinished(existing(r)))
    decreases |records|
  {
    if records != [] {
      assert records == records[..|records| - 1] + [records[|records| - 1]];
      UnfinishedIsPart(records[..|records| - 1], existing);
    }
  }

  lemma {:induction false} StillPendingIsPart(pending: seq<RunId>, answers: Answers, from: nat, n: nat)
    requires Distinct(pending) && n <= |pending|
    ensures DistinctPart(StillPending(pending, answers, from, n), pending[..n])
    ensures forall i :: 0 <= i < n ==>
      (pending[i] in StillPending(pending, answers, from, n) <==> !IsFinished(answers(from + i)))
    decreases n
  {
    if n > 0 {
      StillPendingIsPart(pending, answers, from, n - 1);
      assert pending[..n] == pending[..n - 1] + [pending[n - 1]];
      assert pending[n - 1] !in pending[..n - 1];
      var earlier := StillPending(pending, answers, from, n - 1);
      assert pending[n - 1] !in earlier;
      forall i | 0 <= i < n
        ensures pending[i] in StillPending(pending, answers, from, n) <==> !IsFinished(answers(from + i))
      {
        assert i < n - 1 ==> pending[i] != pending[n - 1];
      }
    }
  }

  function Queries(passes: seq<seq<RunId>>, run: RunId): nat {
    if passes == [] then 0 else Occurrences(passes[0], run) + Queries(passes[1..], run)
  }

  function Occurrences(pass: seq<RunId>, run: RunId): nat {
    if pass == [] then 0 else (if pass[0] == run then 1 else 0) + Occurrences(pass[1..], run)
  }

  lemma {:induction false} DistinctCountsOnce(pending: seq<RunId>, run: RunId)
    requires Distinct(pending)
    ensures Occurrences(pending, run) == if run in pending then 1 else 0
    decreases |pending|
  {
    if pending != [] {
      assert pending == [pending[0]] + pending[1..];
      DistinctCountsOnce(pending[1..], run);
      assert pending[0] !in pending[1..];
    }
  }

  function Length(passes: seq<seq<RunId>>): nat {
    if passes == [] then 0 else |passes[0]| + Length(passes[1..])
  }

  /** The answer that a pass beginning with query `from` gave for a run. */
  function AnswerIn(pass: seq<RunId>, answers: Answers, from: nat, run: RunId): Option<Option<Event>> {
    if pass == [] then None
    else if pass[0] == run then Some(answers(from))
    else AnswerIn(pass[1..], answers, from + 1, run)
  }

  function Listed(answer: Option<Option<Event>>): seq<Option<Event>> {
    if answer.None? then [] else [answer.value]
  }

  /** What the passes were answered for a run, in order. */
  function History(passes: seq<seq<RunId>>, answers: Answers, from: nat, run: RunId): seq<Option<Event>> {
    if passes == [] then []
    else Listed(AnswerIn(passes[0], answers, from, run)) + History(passes[1..], answers, from + |passes[0]|, run)
  }

  lemma {:induction false} OnePassMore(passes: seq<seq<RunId>>, todo: seq<RunId>, run: RunId)
    ensures Length(passes + [todo]) == Length(passes) + |todo|
    ensures Queries(passes + [todo], run) == Queries(passes, run) + Occurrences(todo, run)
    decreases |passes|
  {
    hide Occurrences;
    if passes == [] {
      assert passes + [todo] == [todo];
      assert [todo][1..] == [];
    } else {
      assert (passes + [todo])[1..] == passes[1..] + [todo];
      OnePassMore(passes[1..], todo, run);
    }
  }

  lemma HistoryUnfolds(passes: seq<seq<RunId>>, answers: Answers, from: nat, run: RunId)
    requires passes != []
    ensures History(passes, answers, from, run) ==
      Listed(AnswerIn(passes[0], answers, from, run)) + History(passes[1..], answers, from + |passes[0]|, run)
    ensures Length(passes) == |passes[0]| + Length(passes[1..])
  {
  }

  lemma NoHistory(answers: Answers, from: nat, run: RunId)
    ensures History([], answers, from, run) == [] && Length([]) == 0
  {
  }

  lemma {:induction false} HistoryGrows(passes: seq<seq<RunId>>, todo: seq<RunId>,
                                        answers: Answers, from: nat, run: RunId)
    ensures History(passes + [todo], answers, from, run) ==
      History(passes, answers, from, run) + Listed(AnswerIn(todo, answers, from + Length(passes), run))
    decreases |passes|
  {
    hide *;
    var all := passes + [todo];
    HistoryUnfolds(all, answers, from, run);
    if passes == [] {
      assert all[0] == todo && all[1..] == [];
      NoHistory(answers, from, run);
      NoHistory(answers, from + |todo|, run);
    } else {
      assert all[0] == passes[0] && all[1..] == passes[1..] + [todo];
      HistoryUnfolds(passes, answers, from, run);
      HistoryGrows(passes[1..], todo, answers, from + |passes[0]|, run);
    }
  }

  lemma {:induction false} AnswerAtIndex(pass: seq<RunId>, answers: Answers, from: nat, i: nat)
    requires Distinct(pass) && i < |pass|
    ensures AnswerIn(pass, answers, from, pass[i]) == Some(answers(from + i))
    decreases |pass|
  {
    if i > 0 {
      AnswerAtIndex(pass[1..], answers, from + 1, i - 1);
    }
  }

  lemma {:induction false} NoAnswer(pass: seq<RunId>, answers: Answers, from: nat, run: RunId)
    requires run !in pass
    ensures AnswerIn(pass, answers, from, run).None?
    decreases |pass|
  {
    if pass != [] {
      NoAnswer(pass[1..], answers, from + 1, run);
    }
  }

  // ---- The driver -----------------------------------------------------------------------------------

  datatype Entry = Entry(success: bool, event: Option<Event>, attempts: nat, newlyResolved: bool)

  /** There was an event without evidence, and now there is one with it. */
  predicate Turned(before: Option<Event>, now: Option<Event>) {
    before.Some? && !before.value.resolved && now.Some? && now.value.resolved
  }

  function OnRecord(results: map<RunId, Entry>, run: RunId): Option<Event> {
    if run in results then results[run].event else None
  }

  /** What was known of a run after k queries, `found` being what was on disk. */
  function Known(found: Option<Event>, history: seq<Option<Event>>, k: nat): Option<Event>
    requires k <= |history|
  {
    if k == 0 then found else history[k - 1]
  }

  /** Query k resolved the run. */
  predicate TurnedAt(found: Option<Event>, history: seq<Option<Event>>, k: nat) {
    0 < k <= |history| && Turned(Known(found, history, k - 1), Known(found, history, k))
  }

  function Attempts(results: map<RunId, Entry>, run: RunId): nat {
    if run in results then results[run].attempts else 0
  }

  /** After `pass` passes: runs still pending were queried in each, the others are finished. */
  ghost predicate Accounted(results: map<RunId, Entry>, asked: seq<RunId>, pending: seq<RunId>, pass: nat) {
    forall r :: r in asked ==>
      && r in results
      && (r in pending ==> results[r].attempts == pass)
      && (r !in pending ==> IsFinished(results[r].event) && 1 <= results[r].attempts <= pass)
  }

  /** Every run finished on disk is on record as it was found. */
  ghost predicate Untouched(results: map<RunId, Entry>, records: seq<RunId>, existing: Existing) {
    forall r :: r in records && IsFinished(existing(r)) ==>
      r in results && results[r] == Entry(true, existing(r), 0, false)
  }

  lemma NoneUnfinished(existing: Existing)
    ensures Unfinished([], existing) == []
  {
  }

  lemma UnfinishedStep(records: seq<RunId>, existing: Existing, i: nat)
    requires i < |records|
    ensures Unfinished(records[..i + 1], existing) ==
      Unfinished(records[..i], existing) + (if IsFinished(existing(records[i])) then [] else [records[i]])
    ensures records[..i + 1] == records[..i] + [records[i]]
  {
    assert records[..i + 1][..i] == records[..i];
  }

  method InitialPass(records: seq<RunId>, existing: Existing)
    returns (results: map<RunId, Entry>, pending: seq<RunId>)
    requires Distinct(records)
    ensures pending == Unfinished(records, existing) && Untouched(results, records, existing)
    ensures forall r :: r in pending ==> Attempts(results, r) == 0
    ensures forall r :: r in results ==> r in records && results[r].event == existing(r)
    ensures forall r :: r in pending ==> OnRecord(results, r) == existing(r)
  {
    hide IsFinished, Unfinished;
    NoneUnfinished(existing);
    results := map[];
    pending := [];
    for i := 0 to |records|
      invariant pending == Unfinished(records[..i], existing)
      invariant Untouched(results, records[..i], existing)
      invariant forall r :: r in results ==> r in records[..i] && results[r].event == existing(r)
      invariant forall r :: r in pending ==>
        Attempts(results, r) == 0 && r in records[..i] && OnRecord(results, r) == existing(r)
    {
      var record := records[i];
      var found := existing(record);
      UnfinishedStep(records, existing, i);
      assert record !in records[..i];
      if IsFinished(found) {
        results := results[record := Entry(true, found, 0, false)];
        continue;
      }
      if found.Some? {
        results := results[record := Entry(false, found, 0, false)];
      }
      pending := pending + [record];
    }
    assert records[..|records|] == records;
  }

  /** What one query leaves on record. */
  ghost predicate Recorded(before: map<RunId, Entry>, results: map<RunId, Entry>, run: RunId,
                           answer: Option<Event>, pass: nat)
  {
    run in results &&
    results[run] == Entry(answer.Some?, answer, pass + 1, Turned(OnRecord(before, run), answer))
  }

  function AfterQuery(results: map<RunId, Entry>, run: RunId, answer: Option<Event>): map<RunId, Entry> {
    results[run := Entry(answer.Some?, answer, Attempts(results, run) + 1, Turned(OnRecord(results, run), answer))]
  }

  /** The first n runs of a pass have been queried, and nothing else has changed. */
  ghost predicate Queried(before: map<RunId, Entry>, results: map<RunId, Entry>, pending: seq<RunId>,
                          answers: Answers, from: nat, pass: nat, n: nat)
    requires n <= |pending|
  {
    && (forall r :: r in before && r !in pending[..n] ==> r in results && results[r] == before[r])
    && (forall r :: r in results ==> r in before || r in pending[..n])
    && (forall i :: 0 <= i < n ==> Recorded(before, results, pending[i], answers(from + i), pass))
  }

  lemma QueryStep(before: map<RunId, Entry>, results: map<RunId, Entry>, pending: seq<RunId>,
                  answers: Answers, from: nat, pass: nat, n: nat)
    requires Distinct(pending) && n < |pending| && Attempts(before, pending[n]) == pass
    requires Queried(before, results, pending, answers, from, pass, n)
    ensures Queried(before, AfterQuery(results, pending[n], answers(from + n)), pending, answers, from, pass, n + 1)
  {
    hide Turned;
    var run := pending[n];
    var after := AfterQuery(results, run, answers(from + n));
    assert pending[..n + 1] == pending[..n] + [run];
    assert run !in pending[..n];
    assert Recorded(before, after, run, answers(from + n), pass);
    forall i | 0 <= i < n ensures Recorded(before, after, pending[i], answers(from + i), pass) {
      assert pending[i] in pending[..n];
      assert Recorded(before, results, pending[i], answers(from + i), pass);
    }
  }

  /** One pass over the pending runs, the first of them answered by query `from`. */
  method CollectPass(results0: map<RunId, Entry>, pending: seq<RunId>, answers: Answers, from: nat,
                     ghost pass: nat)
    returns (results: map<RunId, Entry>, stillPending: seq<RunId>)
    requires Distinct(pending) && forall r :: r in pending ==> Attempts(results0, r) == pass
    ensures stillPending == StillPending(pending, answers, from, |pending|)
    ensures Queried(results0, results, pending, answers, from, pass, |pending|)
  {
    results, stillPending := results0, [];
    NothingQueried(results0, pending, answers, from, pass);
    hide IsFinished, Queried, AfterQuery;
    for i := 0 to |pending|
      invariant stillPending == StillPending(pending, answers, from, i)
      invariant Queried(results0, results, pending, answers, from, pass, i)
    {
      var record := pending[i];
      var collected := answers(from + i);
      QueryStep(results0, results, pending, answers, from, pass, i);
      results := AfterQuery(results, record, collected);
      if !IsFinished(collected) {
        stillPending := stillPending + [record];
      }
    }
  }

  lemma NothingQueried(before: map<RunId, Entry>, pending: seq<RunId>, answers: Answers, from: nat, pass: nat)
    ensures Queried(before, before, pending, answers, from, pass, 0)
  {
  }

  /** What holds before pass number `pass`. */
  ghost predicate Ready(results: map<RunId, Entry>, records: seq<RunId>, existing: Existing,
                        asked: seq<RunId>, pending: seq<RunId>, pass: nat)
  {
    && Distinct(pending) && (forall r :: r in pending ==> r in asked && Attempts(results, r) == pass)
    && (if pass == 0 then pending == asked else Accounted(results, asked, pending, pass))
    && Untouched(results, records, existing)
  }

  lemma PassKeeps(before: map<RunId, Entry>, results: map<RunId, Entry>, records: seq<RunId>, existing: Existing,
                  todo: seq<RunId>, answers: Answers, from: nat, pass: nat)
    requires Distinct(records)
    requires Ready(before, records, existing, Unfinished(records, existing), todo, pass)
    requires Queried(before, results, todo, answers, from, pass, |todo|)
    ensures Ready(results, records, existing, Unfinished(records, existing),
                  StillPending(todo, answers, from, |todo|), pass + 1)
    ensures Accounted(results, Unfinished(records, existing), StillPending(todo, answers, from, |todo|), pass + 1)
  {
    UnfinishedIsPart(records, existing);
    StillPendingIsPart(todo, answers, from, |todo|);
    assert todo[..|todo|] == todo;
    var asked := Unfinished(records, existing);
    var still := StillPending(todo, answers, from, |todo|);
    forall r | r in asked
      ensures r in results && (r in still ==> results[r].attempts == pass + 1)
      ensures r !in still ==> IsFinished(results[r].event) && 1 <= results[r].attempts <= pass + 1
    {
      if r in todo {
        var i :| 0 <= i < |todo| && todo[i] == r;
        assert Recorded(before, results, todo[i], answers(from + i), pass);
      }
    }
  }

  /** The entry of a run after its queries were answered as in the history. */
  predicate IsLatest(results: map<RunId, Entry>, run: RunId, found: Option<Event>, history: seq<Option<Event>>) {
    var n := |history|;
    OnRecord(results, run) == Known(found, history, n) &&
    (n > 0 ==>
       run in results &&
       results[run] == Entry(Known(found, history, n).Some?, Known(found, history, n), n, TurnedAt(found, history, n)))
  }

  predicate TracedRun(results: map<RunId, Entry>, run: RunId, existing: Existing,
                      passes: seq<seq<RunId>>, answers: Answers)
  {
    && Attempts(results, run) == Queries(passes, run) == |History(passes, answers, 0, run)|
    && IsLatest(results, run, existing(run), History(passes, answers, 0, run))
  }

  /** What is on record for a run is what its queries answered. */
  ghost predicate Traced(results: map<RunId, Entry>, asked: seq<RunId>, existing: Existing,
                         passes: seq<seq<RunId>>, answers: Answers)
  {
    forall r :: r in asked ==> TracedRun(results, r, existing, passes, answers)
  }

  lemma NothingTraced(results: map<RunId, Entry>, asked: seq<RunId>, existing: Existing, answers: Answers)
    requires forall r :: r in asked ==> Attempts(results, r) == 0 && OnRecord(results, r) == existing(r)
    ensures Traced(results, asked, existing, [], answers)
  {
  }

  lemma LatestStep(before: map<RunId, Entry>, results: map<RunId, Entry>, run: RunId, found: Option<Event>,
                   history: seq<Option<Event>>, answer: Option<Event>, pass: nat)
    requires IsLatest(before, run, found, history) && Recorded(before, results, run, answer, pass)
    requires |history| == pass
    ensures IsLatest(results, run, found, history + [answer])
  {
    var longer := history + [answer];
    assert Known(found, longer, pass) == Known(found, history, pass);
    assert Known(found, longer, pass + 1) == answer;
  }

  lemma TraceKeeps(before: map<RunId, Entry>, results: map<RunId, Entry>, asked: seq<RunId>, existing: Existing,
                   passes: seq<seq<RunId>>, todo: seq<RunId>, answers: Answers, pass: nat)
    requires Traced(before, asked, existing, passes, answers) && Distinct(todo)
    requires forall r :: r in todo ==> r in asked && Attempts(before, r) == pass
    requires Queried(before, results, todo, answers, Length(passes), pass, |todo|)
    ensures Traced(results, asked, existing, passes + [todo], answers)
  {
    hide TracedRun, Distinct, Queried, Attempts;
    forall r | r in asked ensures TracedRun(results, r, existing, passes + [todo], answers) {
      TraceKeepsRun(before, results, r, existing, passes, todo, answers, pass);
    }
  }

  lemma TraceKeepsRun(before: map<RunId, Entry>, results: map<RunId, Entry>, r: RunId, existing: Existing,
                      passes: seq<seq<RunId>>, todo: seq<RunId>, answers: Answers, pass: nat)
    requires TracedRun(before, r, existing, passes, answers) && Distinct(todo)
    requires r in todo ==> Attempts(before, r) == pass
    requires Queried(before, results, todo, answers, Length(passes), pass, |todo|)
    ensures TracedRun(results, r, existing, passes + [todo], answers)
  {
    hide Turned, Queries, History, Length, Occurrences, AnswerIn, IsLatest;
    assert todo[..|todo|] == todo;
    var from := Length(passes);
    var history := History(passes, answers, 0, r);
    OnePassMore(passes, todo, r);
    HistoryGrows(passes, todo, answers, 0, r);
    DistinctCountsOnce(todo, r);
    if r in todo {
      var i :| 0 <= i < |todo| && todo[i] == r;
      assert Recorded(before, results, todo[i], answers(from + i), pass);
      AnswerAtIndex(todo, answers, from, i);
      LatestStep(before, results, r, existing(r), history, answers(from + i), pass);
    } else {
      NoAnswer(todo, answers, from, r);
      assert history + [] == history;
      SameLatest(before, results, r, existing(r), history);
    }
  }

  lemma SameLatest(before: map<RunId, Entry>, results: map<RunId, Entry>, run: RunId, found: Option<Event>,
                   history: seq<Option<Event>>)
    requires IsLatest(before, run, found, history)
    requires run in before <==> run in results
    requires run in before ==> results[run] == before[run]
    ensures IsLatest(results, run, found, history)
  {
  }

  /**
   A run finished on disk is reported as found; any other by its queries, their last answer, and whether
   that answer resolved it.
   */
  ghost predicate Reported(outcome: Outcome, run: RunId, existing: Existing, passes: seq<seq<RunId>>,
                           answers: Answers, retries: nat)
  {
    var history := History(passes, answers, 0, run);
    && outcome.run == run && outcome.attempts == Queries(passes, run) == |history|
    && outcome.event == Known(existing(run), history, |history|) && outcome.success == outcome.event.Some?
    && outcome.newlyResolved == TurnedAt(existing(run), history, |history|)
    && (if IsFinished(existing(run)) then outcome.attempts == 0
        else 1 <= outcome.attempts <= retries + 1 &&
             (IsFinished(outcome.event) || outcome.attempts == retries + 1))
  }

  function OutcomeOf(results: map<RunId, Entry>, run: RunId): Outcome {
    if run in results then
      Outcome(run, results[run].success, results[run].event, results[run].attempts, results[run].newlyResolved)
    else Outcome(run, false, None, 0, false)
  }

  lemma ReportIsSound(results: map<RunId, Entry>, records: seq<RunId>, existing: Existing,
                      pending: seq<RunId>, pass: nat, passes: seq<seq<RunId>>, answers: Answers,
                      retries: nat, run: RunId)
    requires Distinct(records) && run in records
    requires Traced(results, Unfinished(records, existing), existing, passes, answers)
    requires passes == Passes(Unfinished(records, existing), answers, 0, retries)
    requires Untouched(results, records, existing)
    requires Accounted(results, Unfinished(records, existing), pending, pass)
    requires pending == [] || pass == retries + 1
    requires pass >= 1
    ensures run in results && Reported(OutcomeOf(results, run), run, existing, passes, answers, retries)
  {
    hide Passes, History, Queries;
    UnfinishedIsPart(records, existing);
    QueriesAreBounded(Unfinished(records, existing), answers, 0, retries, run);
    HistoryIsCounted(Unfinished(records, existing), answers, 0, retries, 0, run);
  }

  /**
   The whole collection.  `passes` are the queries made, in order; between two passes there is
   exactly one sleep, and no other.
   */
  method CollectWithRetry(records: seq<RunId>, retries: nat, existing: Existing, answers: Answers)
    returns (outcomes: seq<Outcome>, passes: seq<seq<RunId>>, sleeps: nat)
    requires Distinct(records)
    ensures passes == Passes(Unfinished(records, existing), answers, 0, retries)
    ensures sleeps == |passes| - 1
    ensures |outcomes| == |records|
    ensures forall i :: 0 <= i < |records| ==> Reported(outcomes[i], records[i], existing, passes, answers, retries)
  {
    hide Passes, StillPending, Unfinished, Accounted, Untouched, Reported, TracedRun, Traced, Queried,
         Length;
    NoLength();
    var results, pending := InitialPass(records, existing);
    UnfinishedIsPart(records, existing);
    ghost var asked := pending;
    var pass := 0;
    var from: nat := 0;
    sleeps := 0;
    passes := [];
    NothingTraced(results, asked, existing, answers);
    assert [] + Passes(pending, answers, 0, retries) == Passes(pending, answers, 0, retries);
    while true
      invariant pass <= retries && sleeps == (if pass == 0 then 0 else pass - 1) && |passes| == pass
      invariant Ready(results, records, existing, asked, pending, pass)
      invariant Traced(results, asked, existing, passes, answers) && from == Length(passes)
      invariant Passes(asked, answers, 0, retries) == passes + Passes(pending, answers, from, retries - pass)
      decreases retries - pass
    {
      if pass > 0 {
        sleeps := sleeps + 1;
      }
      ghost var before, earlier := results, passes;
      var todo := pending;
      PassesUnfold(todo, answers, from, retries - pass);
      passes := passes + [pending];
      results, pending := CollectPass(results, todo, answers, from, pass);
      PassKeeps(before, results, records, existing, todo, answers, from, pass);
      TraceKeeps(before, results, asked, existing, earlier, todo, answers, pass);
      OnePassMore(earlier, todo, "");
      from := from + |todo|;
      pass := pass + 1;
      if |pending| == 0 || pass > retries {
        break;
      }
      ghost var rest := Passes(pending, answers, from, retries - pass);
      assert earlier + ([todo] + rest) == passes + rest;
    }
    forall i | 0 <= i < |records|
      ensures Reported(OutcomeOf(results, records[i]), records[i], existing, passes, answers, retries)
    {
      ReportIsSound(results, records, existing, pending, pass, passes, answers, retries, records[i]);
    }
    outcomes := seq(|records|, i requires 0 <= i < |records| => OutcomeOf(results, records[i]));
  }

  lemma NoLength()
    ensures Length([]) == 0
  {
  }

  lemma PassesUnfold(pending: seq<RunId>, answers: Answers, from: nat, more: nat)
    ensures
      var still := StillPending(pending, answers, from, |pending|);
      Passes(pending, answers, from, more) ==
        [pending] + (if still == [] || more == 0 then [] else Passes(still, answers, from + |pending|, more - 1))
  {
  }

  // ---- What the passes are -----------------------------------------------------------------------------

  /** Only pending runs are queried, each at most once a pass. */
  lemma {:induction false} QueriesAreBounded(pending: seq<RunId>, answers: Answers, from: nat, more: nat, run: RunId)
    requires Distinct(pending)
    ensures
      var passes := Passes(pending, answers, from, more);
      Queries(passes, run) <= |passes| && (run in pending <==> Queries(passes, run) > 0)
    decreases more
  {
    hide StillPending, Passes, Occurrences, Queries, Distinct;
    var still := StillPending(pending, answers, from, |pending|);
    PassesUnfold(pending, answers, from, more);
    DistinctCountsOnce(pending, run);
    if still != [] && more > 0 {
      StillPendingWasPending(pending, answers, from, run);
      QueriesAreBounded(still, answers, from + |pending|, more - 1, run);
      QueriesOfFirst(pending, Passes(still, answers, from + |pending|, more - 1), run);
    } else {
      QueriesOfFirst(pending, [], run);
    }
  }

  lemma {:induction false} HistoryIsCounted(pending: seq<RunId>, answers: Answers, from: nat, more: nat, at: nat,
                                            run: RunId)
    requires Distinct(pending)
    ensures var passes := Passes(pending, answers, from, more);
      |History(passes, answers, at, run)| == Queries(passes, run)
    decreases more
  {
    hide StillPending, Passes, Occurrences, Queries, Distinct, History, AnswerIn;
    var still := StillPending(pending, answers, from, |pending|);
    PassesUnfold(pending, answers, from, more);
    DistinctCountsOnce(pending, run);
    OneAnswer(pending, answers, at, run);
    if still != [] && more > 0 {
      StillPendingWasPending(pending, answers, from, run);
      HistoryIsCounted(still, answers, from + |pending|, more - 1, at + |pending|, run);
      QueriesOfFirst(pending, Passes(still, answers, from + |pending|, more - 1), run);
      HistoryOfFirst(pending, Passes(still, answers, from + |pending|, more - 1), answers, at, run);
    } else {
      QueriesOfFirst(pending, [], run);
      HistoryOfFirst(pending, [], answers, at, run);
    }
  }

  lemma OneAnswer(pending: seq<RunId>, answers: Answers, from: nat, run: RunId)
    requires Distinct(pending)
    ensures AnswerIn(pending, answers, from, run).Some? <==> run in pending
  {
    if run in pending {
      var i :| 0 <= i < |pending| && pending[i] == run;
      AnswerAtIndex(pending, answers, from, i);
    } else {
      NoAnswer(pending, answers, from, run);
    }
  }

  lemma HistoryOfFirst(first: seq<RunId>, rest: seq<seq<RunId>>, answers: Answers, from: nat, run: RunId)
    ensures History([first] + rest, answers, from, run) ==
      Listed(AnswerIn(first, answers, from, run)) + History(rest, answers, from + |first|, run)
    ensures History([], answers, from + |first|, run) == []
  {
    assert ([first] + rest)[1..] == rest;
  }

  lemma StillPendingWasPending(pending: seq<RunId>, answers: Answers, from: nat, run: RunId)
    requires Distinct(pending)
    ensures var still := StillPending(pending, answers, from, |pending|);
      Distinct(still) && (run in still ==> run in pending)
  {
    hide StillPending;
    StillPendingIsPart(pending, answers, from, |pending|);
    assert pending[..|pending|] == pending;
  }

  lemma QueriesOfFirst(first: seq<RunId>, rest: seq<seq<RunId>>, run: RunId)
    ensures Queries([first] + rest, run) == Occurrences(first, run) + Queries(rest, run)
    ensures Queries([], run) == 0
  {
  }

  /** There is no pass, and so no sleep, with nothing left to query. */
  lemma {:induction false} RetriesHaveWork(pending: seq<RunId>, answers: Answers, from: nat, more: nat, k: nat)
    requires 1 <= k < |Passes(pending, answers, from, more)|
    ensures Passes(pending, answers, from, more)[k] != []
    decreases more
  {
    hide StillPending;
    var still := StillPending(pending, answers, from, |pending|);
    if k > 1 {
      RetriesHaveWork(still, answers, from + |pending|, more - 1, k - 1);
    }
  }

  /** A run finished on disk is never queried; any other at most once more than there are retries. */
  lemma FinishedRunsAreLeftAlone(records: seq<RunId>, existing: Existing, answers: Answers, retries: nat, run: RunId)
    requires Distinct(records) && run in records
    ensures
      var queries := Queries(Passes(Unfinished(records, existing), answers, 0, retries), run);
      if IsFinished(existing(run)) then queries == 0 else 1 <= queries <= retries + 1
  {
    UnfinishedIsPart(records, existing);
    QueriesAreBounded(Unfinished(records, existing), answers, 0, retries, run);
  }

  // ---- The flag of a run that was resolved ----------------------------------------------------------------

  /** A run is asked again only after an answer that did not finish it. */
  lemma {:induction false} AskedAgainOnlyUnfinished(pending: seq<RunId>, answers: Answers, from: nat, more: nat,
                                                    run: RunId, k: nat)
    requires Distinct(pending)
    requires k + 1 < |History(Passes(pending, answers, from, more), answers, from, run)|
    ensures !IsFinished(History(Passes(pending, answers, from, more), answers, from, run)[k])
    decreases more
  {
    hide StillPending, Passes, Distinct, History, AnswerIn, IsFinished;
    var n := |pending|;
    var still := StillPending(pending, answers, from, n);
    PassesUnfold(pending, answers, from, more);
    OneAnswer(pending, answers, from, run);
    if still != [] && more > 0 {
      var rest := Passes(still, answers, from + n, more - 1);
      var later := History(rest, answers, from + n, run);
      HistoryOfFirst(pending, rest, answers, from, run);
      StillPendingWasPending(pending, answers, from, run);
      HistoryIsCounted(still, answers, from + n, more - 1, from + n, run);
      QueriesAreBounded(still, answers, from + n, more - 1, run);
      if k == 0 {
        FirstAnswerDecides(pending, answers, from, run);
      } else {
        AskedAgainOnlyUnfinished(still, answers, from + n, more - 1, run, k - 1);
      }
    } else {
      HistoryOfFirst(pending, [], answers, from, run);
    }
  }

  lemma FirstAnswerDecides(pending: seq<RunId>, answers: Answers, from: nat, run: RunId)
    requires Distinct(pending) && run in pending
    ensures AnswerIn(pending, answers, from, run).Some?
    ensures run in StillPending(pending, answers, from, |pending|) <==>
      !IsFinished(AnswerIn(pending, answers, from, run).value)
  {
    var i :| 0 <= i < |pending| && pending[i] == run;
    AnswerAtIndex(pending, answers, from, i);
    StillPendingIsPart(pending, answers, from, |pending|);
  }

  /**
   A run that query k resolved, no later query doing so again, is reported as newly resolved exactly when
   that answer finished it or was the last one allowed; else the flag is lost to the next query.
   */
  lemma FlagSurvivesExactly(records: seq<RunId>, retries: nat, existing: Existing, answers: Answers,
                            outcome: Outcome, run: RunId, k: nat)
    requires Distinct(records) && run in records && !IsFinished(existing(run))
    requires Reported(outcome, run, existing, Passes(Unfinished(records, existing), answers, 0, retries), answers,
                      retries)
    requires
      var history := History(Passes(Unfinished(records, existing), answers, 0, retries), answers, 0, run);
      TurnedAt(existing(run), history, k) && forall j :: k < j <= |history| ==> !TurnedAt(existing(run), history, j)
    ensures
      var history := History(Passes(Unfinished(records, existing), answers, 0, retries), answers, 0, run);
      outcome.newlyResolved <==> IsFinished(Known(existing(run), history, k)) || k == retries + 1
  {
    hide Passes, History, Unfinished, Queries, IsFinished, Turned;
    UnfinishedIsPart(records, existing);
    var history := History(Passes(Unfinished(records, existing), answers, 0, retries), answers, 0, run);
    if k < |history| {
      AskedAgainOnlyUnfinished(Unfinished(records, existing), answers, 0, retries, run, k - 1);
    }
  }

  const WITHOUT_EVIDENCE := Event(false, false, false)
  const WITHOUT_CPU := Event(true, true, false)
  const WITH_CPU := Event(true, true, true)

  /** On disk without evidence, then resolved without its CPU row, then complete: not newly resolved. */
  lemma FlagIsLost(outcome: Outcome, existing: Existing, answers: Answers)
    requires existing("run") == Some(WITHOUT_EVIDENCE)
    requires answers(0) == Some(WITHOUT_CPU) && answers(1) == Some(WITH_CPU)
    ensures
      var passes := Passes(Unfinished(["run"], existing), answers, 0, 2);
      && passes == [["run"], ["run"]] && TurnedAt(existing("run"), History(passes, answers, 0, "run"), 1)
      && (Reported(outcome, "run", existing, passes, answers, 2) ==> !outcome.newlyResolved && outcome.success)
  {
    hide Passes, History, Unfinished, Queries;
    TwoPasses(existing, answers);
    TwoAnswers(answers);
  }

  lemma TwoPasses(existing: Existing, answers: Answers)
    requires existing("run") == Some(WITHOUT_EVIDENCE)
    requires answers(0) == Some(WITHOUT_CPU) && answers(1) == Some(WITH_CPU)
    ensures Passes(Unfinished(["run"], existing), answers, 0, 2) == [["run"], ["run"]]
  {
    var one := ["run"];
    assert Unfinished(one, existing) == one by { assert one[..0] == [] && one[0] == "run"; }
    hide Passes, StillPending, Unfinished;
    OneStillPending(answers, 0);
    OneStillPending(answers, 1);
    PassesUnfold(one, answers, 0, 2);
    PassesUnfold(one, answers, 1, 1);
    assert [one] + [one] == [one, one];
  }

  lemma TwoAnswers(answers: Answers)
    requires answers(0) == Some(WITHOUT_CPU) && answers(1) == Some(WITH_CPU)
    ensures History([["run"], ["run"]], answers, 0, "run") == [Some(WITHOUT_CPU), Some(WITH_CPU)]
  {
    hide *;
    var one := ["run"];
    var passes := [one, one];
    HistoryUnfolds(passes, answers, 0, "run");
    assert passes[1..] == [one] && [one][1..] == [];
    HistoryUnfolds([one], answers, 1, "run");
    NoHistory(answers, 2, "run");
    IsDistinct(one);
    AnswerAtIndex(one, answers, 0, 0);
    AnswerAtIndex(one, answers, 1, 0);
    ListedIs(Some(WITHOUT_CPU));
    ListedIs(Some(WITH_CPU));
  }

  lemma ListedIs(answer: Option<Event>)
    ensures Listed(Some(answer)) == [answer]
  {
  }

  lemma IsDistinct(one: seq<RunId>)
    requires |one| == 1
    ensures Distinct(one)
  {
  }

  lemma OneStillPending(answers: Answers, from: nat)
    ensures StillPending(["run"], answers, from, 1) == if IsFinished(answers(from)) then [] else ["run"]
  {
    assert StillPending(["run"], answers, from, 0) == [];
  }
}
