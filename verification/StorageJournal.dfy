/**
 The storage journal: what one decorator around a storage backend may claim to know.

 `JournalModel` holds the journal's state as a value, the steps that change it, and the world
 around it: a backend whose calls take effect at moments the journal cannot see.
 `JournalRuns` proves what the journal's namespace snapshot says about that backend after
 every interleaving.  `StorageJournal` is the decorator itself, with its mutable rows and
 its per-key sets of active mutations, proved step by step against `JournalModel`.
 */
module JournalModel {

  import opened Options

  type Key = string

  datatype Verb = Get | Put | Delete | List

  datatype ErrorClass =
    | Aborted | Conflict | NetworkError | InvalidResponse | Internal | InvalidConfig | Unknown

  datatype Result = Returned | Threw(error: ErrorClass)

  /** One journal row.  `result` is None while the call is in flight. */
  datatype Row = Row(
    verb: Verb,
    key: Key,
    length: nat,
    abortedAtDispatch: bool,
    overlapped: bool,
    result: Option<Result>)

  /** `lastOperation` is None for a provisioned entry. */
  datatype Entry = Entry(byteLength: nat, lastOperation: Option<nat>)

  datatype Uncertainty = Uncertainty(
    operation: nat,
    verb: Verb,
    classification: ErrorClass,
    abortedAtDispatch: bool)

  datatype Journal = Journal(
    rows: seq<Row>,
    entries: map<Key, Entry>,
    uncertain: map<Key, Uncertainty>,
    overlapUnknown: set<Key>)

  const EMPTY := Journal([], map[], map[], {})

  predicate IsMutation(verb: Verb) {
    verb == Put || verb == Delete
  }

  predicate Pending(row: Row) {
    row.result.None?
  }

  predicate ActiveOn(row: Row, key: Key) {
    row.key == key && IsMutation(row.verb) && Pending(row)
  }

  predicate Quiescent(j: Journal) {
    forall i :: 0 <= i < |j.rows| ==> !Pending(j.rows[i])
  }

  function UncertainKeys(j: Journal): set<Key> {
    j.uncertain.Keys + j.overlapUnknown
  }

  // ---- The journal's own steps -------------------------------------------------------------

  predicate HasActive(rows: seq<Row>, key: Key) {
    exists i :: 0 <= i < |rows| && ActiveOn(rows[i], key)
  }

  function MarkOverlap(rows: seq<Row>, key: Key): (r: seq<Row>)
    ensures |r| == |rows|
    ensures forall i :: 0 <= i < |rows| ==>
      r[i] == if ActiveOn(rows[i], key) then rows[i].(overlapped := true) else rows[i]
  {
    if rows == [] then []
    else
      var last := rows[|rows| - 1];
      MarkOverlap(rows[..|rows| - 1], key) +
      [if ActiveOn(last, key) then last.(overlapped := true) else last]
  }

  /** A call enters the journal.  A mutation that finds others active on its key taints all of them. */
  function Dispatch(j: Journal, verb: Verb, key: Key, length: nat, aborted: bool): Journal {
    if IsMutation(verb) then
      j.(rows := MarkOverlap(j.rows, key) +
                 [Row(verb, key, length, aborted, HasActive(j.rows, key), None)])
    else
      j.(rows := j.rows + [Row(verb, key, length, aborted, false, None)])
  }

  function WithUncertainty(j: Journal, op: nat, row: Row, error: ErrorClass): Journal {
    if error == Conflict then j
    else j.(
      entries := j.entries - {row.key},
      uncertain := j.uncertain[row.key := Uncertainty(op, row.verb, error, row.abortedAtDispatch)])
  }

  /** A call leaves the journal with its outcome. */
  function Settle(j: Journal, op: nat, result: Result): Journal
    requires op < |j.rows| && Pending(j.rows[op])
  {
    var row := j.rows[op];
    var j0 := j.(rows := j.rows[op := row.(result := Some(result))]);
    if !IsMutation(row.verb) then j0
    else
      var j1 := if row.overlapped
                then j0.(entries := j0.entries - {row.key},
                         overlapUnknown := j0.overlapUnknown + {row.key})
                else j0;
      match result
      case Threw(error) => WithUncertainty(j1, op, row, error)
      case Returned =>
        if row.overlapped then j1
        else j1.(
          uncertain := j1.uncertain - {row.key},
          overlapUnknown := j1.overlapUnknown - {row.key},
          entries := if row.verb == Put
                     then j1.entries[row.key := Entry(row.length, Some(op))]
                     else j1.entries - {row.key})
  }

  function ProvisionOne(j: Journal, key: Key, length: nat): Journal {
    j.(uncertain := j.uncertain - {key},
       overlapUnknown := j.overlapUnknown - {key},
       entries := j.entries[key := Entry(length, None)])
  }

  function ProvisionAll(j: Journal, provisioned: seq<(Key, nat)>): (r: Journal)
    ensures r.rows == j.rows
  {
    if provisioned == [] then j
    else
      var last := provisioned[|provisioned| - 1];
      ProvisionOne(ProvisionAll(j, provisioned[..|provisioned| - 1]), last.0, last.1)
  }

  /** Refused, with no change, while any call is in flight. */
  function Provision(j: Journal, provisioned: seq<(Key, nat)>): Journal {
    if Quiescent(j) then ProvisionAll(j, provisioned) else j
  }

  // ---- The world around the journal --------------------------------------------------------

  datatype Event =
    | Dispatched(verb: Verb, key: Key, length: nat, aborted: bool)
    | TookEffect(op: nat)
    | Settled(op: nat, result: Result)
    | Provisioned(entries: seq<(Key, nat)>)

  /** `applied` holds the calls that have changed the backend at least once. */
  datatype World = World(journal: Journal, backend: map<Key, nat>, applied: set<nat>)

  const START := World(EMPTY, map[], {})

  function Write(backend: map<Key, nat>, row: Row): map<Key, nat> {
    if row.verb == Put then backend[row.key := row.length] else backend - {row.key}
  }

  function WriteAll(backend: map<Key, nat>, provisioned: seq<(Key, nat)>): map<Key, nat> {
    if provisioned == [] then backend
    else
      var last := provisioned[|provisioned| - 1];
      WriteAll(backend, provisioned[..|provisioned| - 1])[last.0 := last.1]
  }

  /**
   What the backend may do.  A call changes it only between dispatch and settlement, any
   number of times; a call that returned did change it, one that conflicted did not, and any
   other failure says nothing.  Provisioning writes exactly what it records.
   */
  predicate Allowed(w: World, e: Event) {
    match e
    case Dispatched(_, _, _, _) => true
    case TookEffect(op) =>
      op < |w.journal.rows| && Pending(w.journal.rows[op]) && IsMutation(w.journal.rows[op].verb)
    case Settled(op, result) =>
      && op < |w.journal.rows| && Pending(w.journal.rows[op])
      && (IsMutation(w.journal.rows[op].verb) ==>
            && (result == Returned ==> op in w.applied)
            && (result == Threw(Conflict) ==> op !in w.applied))
    case Provisioned(_) => true
  }

  function Next(w: World, e: Event): World
    requires Allowed(w, e)
  {
    match e
    case Dispatched(verb, key, length, aborted) =>
      w.(journal := Dispatch(w.journal, verb, key, length, aborted))
    case TookEffect(op) =>
      w.(backend := Write(w.backend, w.journal.rows[op]), applied := w.applied + {op})
    case Settled(op, result) =>
      w.(journal := Settle(w.journal, op, result))
    case Provisioned(es) =>
      if Quiescent(w.journal)
      then w.(journal := Provision(w.journal, es), backend := WriteAll(w.backend, es))
      else w
  }

  /** The world after a run, or None when some event was not allowed. */
  function After(run: seq<Event>): Option<World> {
    if run == [] then Some(START)
    else
      match After(run[..|run| - 1])
      case None => None
      case Some(w) =>
        var e := run[|run| - 1];
        if Allowed(w, e) then Some(Next(w, e)) else None
  }

  // ---- What an outside observer sees of a run, without the journal ---------------------------

  datatype End = Open | Closed(at: nat, result: Result)

  datatype Span = Span(verb: Verb, key: Key, from: nat, end: End)

  /** `provisioned` maps a key to the time of its latest provisioning with no call in flight. */
  datatype History = History(spans: seq<Span>, provisioned: map<Key, nat>)

  predicate AllClosed(spans: seq<Span>) {
    forall i :: 0 <= i < |spans| ==> spans[i].end.Closed?
  }

  function Stamp(m: map<Key, nat>, es: seq<(Key, nat)>, at: nat): (r: map<Key, nat>)
    ensures forall k :: k in r <==> k in m || exists i :: 0 <= i < |es| && es[i].0 == k
    ensures forall k :: k in r ==>
      r[k] == if exists i :: 0 <= i < |es| && es[i].0 == k then at else m[k]
  {
    if es == [] then m
    else
      var last := |es| - 1;
      assert forall i :: 0 <= i < last ==> es[..last][i] == es[i];
      Stamp(m, es[..last], at)[es[last].0 := at]
  }

  function Observe(run: seq<Event>): History {
    if run == [] then History([], map[])
    else
      var now := |run| - 1;
      var h := Observe(run[..now]);
      match run[now]
      case Dispatched(verb, key, _, _) => h.(spans := h.spans + [Span(verb, key, now, Open)])
      case TookEffect(_) => h
      case Settled(op, result) =>
        if op < |h.spans| then h.(spans := h.spans[op := h.spans[op].(end := Closed(now, result))])
        else h
      case Provisioned(es) =>
        if AllClosed(h.spans) then h.(provisioned := Stamp(h.provisioned, es, now)) else h
  }

  predicate StartsBeforeEnd(a: Span, b: Span) {
    b.end.Open? || a.from < b.end.at
  }

  /** Two different mutations of one key were in flight at the same time. */
  ghost predicate Overlap(spans: seq<Span>, i: int, j: int) {
    && 0 <= i < |spans| && 0 <= j < |spans| && i != j
    && IsMutation(spans[i].verb) && IsMutation(spans[j].verb)
    && spans[i].key == spans[j].key
    && StartsBeforeEnd(spans[i], spans[j]) && StartsBeforeEnd(spans[j], spans[i])
  }

  ghost predicate Overlapped(spans: seq<Span>, i: int) {
    exists j :: Overlap(spans, i, j)
  }

  ghost predicate SettledMutation(spans: seq<Span>, i: int, key: Key) {
    0 <= i < |spans| && spans[i].key == key && IsMutation(spans[i].verb) && spans[i].end.Closed?
  }

  /** A settled mutation after which nobody can say what the key holds. */
  ghost predicate Spoils(spans: seq<Span>, i: int, key: Key) {
    && SettledMutation(spans, i, key)
    && (Overlapped(spans, i) || (spans[i].end.result.Threw? && spans[i].end.result.error != Conflict))
  }

  ghost predicate CleanSuccess(spans: seq<Span>, i: int, key: Key) {
    SettledMutation(spans, i, key) && !Overlapped(spans, i) && spans[i].end.result == Returned
  }

  ghost predicate RestoredAfter(h: History, key: Key, at: nat) {
    || (exists j :: CleanSuccess(h.spans, j, key) && at < h.spans[j].end.at)
    || (key in h.provisioned && at < h.provisioned[key])
  }

  /** Some mutation of the key spoiled it and nothing has restored it since. */
  ghost predicate Tainted(h: History, key: Key) {
    exists i :: Spoils(h.spans, i, key) && !RestoredAfter(h, key, h.spans[i].end.at)
  }
}

/** What holds after every run. */
module JournalRuns {
  import opened Options
  import opened JournalModel

  ghost predicate Agrees(w: World, key: Key) {
    && (key in w.journal.entries <==> key in w.backend)
    && (key in w.journal.entries ==> w.journal.entries[key].byteLength == w.backend[key])
  }

  ghost predicate HoldsEffect(backend: map<Key, nat>, row: Row) {
    if row.verb == Put then row.key in backend && backend[row.key] == row.length
    else row.key !in backend
  }

  ghost predicate ActiveAndApplied(w: World, i: int, key: Key) {
    0 <= i < |w.journal.rows| && ActiveOn(w.journal.rows[i], key) && i in w.applied
  }

  ghost predicate KnownIsTrue(w: World) {
    forall key :: key !in UncertainKeys(w.journal) && !Agrees(w, key) ==>
      exists i :: ActiveAndApplied(w, i, key)
  }

  ghost predicate IsolatedInFlight(row: Row) {
    IsMutation(row.verb) && Pending(row) && !row.overlapped
  }

  ghost predicate AppliedIsVisible(w: World) {
    && (forall i :: i in w.applied ==> i < |w.journal.rows|)
    && (forall i :: 0 <= i < |w.journal.rows| && i in w.applied && IsolatedInFlight(w.journal.rows[i]) ==>
          HoldsEffect(w.backend, w.journal.rows[i]))
  }

  ghost predicate Mirrors(row: Row, span: Span) {
    && row.verb == span.verb && row.key == span.key
    && (row.result.None? <==> span.end.Open?)
    && (row.result.Some? ==> row.result.value == span.end.result)
  }

  ghost predicate RowsMirrorSpans(j: Journal, h: History, now: nat) {
    && |j.rows| == |h.spans|
    && (forall i :: 0 <= i < |j.rows| ==> Mirrors(j.rows[i], h.spans[i]))
    && (forall i :: 0 <= i < |h.spans| ==>
          h.spans[i].from < now && (h.spans[i].end.Closed? ==> h.spans[i].end.at < now))
    && (forall key :: key in h.provisioned ==> h.provisioned[key] < now)
  }

  ghost predicate FlagsAreOverlaps(j: Journal, h: History)
    requires |j.rows| == |h.spans|
  {
    forall i :: 0 <= i < |j.rows| && IsMutation(j.rows[i].verb) ==>
      (j.rows[i].overlapped <==> Overlapped(h.spans, i))
  }

  ghost predicate UncertainIsTainted(j: Journal, h: History) {
    forall key :: key in UncertainKeys(j) <==> Tainted(h, key)
  }

  ghost predicate KnownAndUncertainApart(j: Journal) {
    j.entries.Keys !! UncertainKeys(j)
  }

  ghost predicate Invariant(w: World, h: History, now: nat) {
    && RowsMirrorSpans(w.journal, h, now)
    && FlagsAreOverlaps(w.journal, h)
    && AppliedIsVisible(w)
    && KnownIsTrue(w)
    && UncertainIsTainted(w.journal, h)
    && KnownAndUncertainApart(w.journal)
  }

  // ---- Dispatch ------------------------------------------------------------------------------

  lemma DispatchOverlaps(spans: seq<Span>, verb: Verb, key: Key, now: nat, i: int, j: int)
    requires forall n :: 0 <= n < |spans| ==> spans[n].from < now && (spans[n].end.Closed? ==> spans[n].end.at < now)
    ensures var spans' := spans + [Span(verb, key, now, Open)];
      && (0 <= i < |spans| && 0 <= j < |spans| ==> (Overlap(spans', i, j) <==> Overlap(spans, i, j)))
      && (0 <= i < |spans| ==> (Overlap(spans', i, |spans|) <==>
            IsMutation(verb) && IsMutation(spans[i].verb) && spans[i].key == key && spans[i].end.Open?))
      && (Overlap(spans', |spans|, j) <==> Overlap(spans', j, |spans|))
  {
  }

  lemma DispatchKeepsClosed(spans: seq<Span>, verb: Verb, key: Key, now: nat, i: int)
    requires forall n :: 0 <= n < |spans| ==> spans[n].from < now && (spans[n].end.Closed? ==> spans[n].end.at < now)
    requires 0 <= i < |spans|
    ensures var spans' := spans + [Span(verb, key, now, Open)];
      Overlapped(spans', i) <==>
        Overlapped(spans, i) ||
        (IsMutation(verb) && IsMutation(spans[i].verb) && spans[i].key == key && spans[i].end.Open?)
  {
    var spans' := spans + [Span(verb, key, now, Open)];
    if Overlapped(spans', i) {
      var j :| Overlap(spans', i, j);
      DispatchOverlaps(spans, verb, key, now, i, j);
    }
    if Overlapped(spans, i) {
      var j :| Overlap(spans, i, j);
      DispatchOverlaps(spans, verb, key, now, i, j);
      assert Overlap(spans', i, j);
    }
    DispatchOverlaps(spans, verb, key, now, i, |spans|);
  }

  lemma TaintUnchanged(h: History, h': History, key: Key)
    requires h.provisioned == h'.provisioned
    requires forall i :: SettledMutation(h.spans, i, key) <==> SettledMutation(h'.spans, i, key)
    requires forall i :: SettledMutation(h.spans, i, key) && SettledMutation(h'.spans, i, key) ==>
      h.spans[i].end == h'.spans[i].end && (Overlapped(h.spans, i) <==> Overlapped(h'.spans, i))
    ensures Tainted(h, key) <==> Tainted(h', key)
  {
  }

  lemma DispatchFlags(w: World, h: History, now: nat, verb: Verb, key: Key, length: nat, aborted: bool)
    requires Invariant(w, h, now)
    ensures FlagsAreOverlaps(
      Dispatch(w.journal, verb, key, length, aborted),
      h.(spans := h.spans + [Span(verb, key, now, Open)]))
  {
    hide AppliedIsVisible, KnownIsTrue, UncertainIsTainted, KnownAndUncertainApart, Overlapped, HasActive;
    var rows := w.journal.rows;
    var h' := h.(spans := h.spans + [Span(verb, key, now, Open)]);
    forall i | 0 <= i < |rows|
      ensures Overlapped(h'.spans, i) <==>
        Overlapped(h.spans, i) || (IsMutation(verb) && ActiveOn(rows[i], key))
    {
      assert Mirrors(rows[i], h.spans[i]);
      DispatchKeepsClosed(h.spans, verb, key, now, i);
    }
    if IsMutation(verb) {
      DispatchFlagsNew(w, h, now, verb, key, length, aborted);
    }
  }

  lemma DispatchTaint(w: World, h: History, now: nat, verb: Verb, key: Key, k: Key)
    requires RowsMirrorSpans(w.journal, h, now)
    ensures Tainted(h, k) <==> Tainted(h.(spans := h.spans + [Span(verb, key, now, Open)]), k)
  {
    var h' := h.(spans := h.spans + [Span(verb, key, now, Open)]);
    forall i | SettledMutation(h.spans, i, k)
      ensures Overlapped(h'.spans, i) <==> Overlapped(h.spans, i)
    {
      DispatchKeepsClosed(h.spans, verb, key, now, i);
    }
    TaintUnchanged(h, h', k);
  }

  lemma DispatchKnown(w: World, h: History, now: nat, verb: Verb, key: Key, length: nat, aborted: bool)
    requires Invariant(w, h, now)
    ensures var w' := w.(journal := Dispatch(w.journal, verb, key, length, aborted));
      AppliedIsVisible(w') && KnownIsTrue(w')
  {
    var w' := w.(journal := Dispatch(w.journal, verb, key, length, aborted));
    forall k | k !in UncertainKeys(w'.journal) && !Agrees(w', k)
      ensures exists i :: ActiveAndApplied(w', i, k)
    {
      assert !Agrees(w, k);
      var i :| ActiveAndApplied(w, i, k);
      assert ActiveAndApplied(w', i, k);
    }
  }

  lemma DispatchKeeps(w: World, h: History, now: nat, verb: Verb, key: Key, length: nat, aborted: bool)
    requires Invariant(w, h, now)
    ensures Invariant(
      w.(journal := Dispatch(w.journal, verb, key, length, aborted)),
      h.(spans := h.spans + [Span(verb, key, now, Open)]), now + 1)
  {
    hide Tainted, FlagsAreOverlaps, Overlapped, HasActive;
    DispatchFlags(w, h, now, verb, key, length, aborted);
    DispatchKnown(w, h, now, verb, key, length, aborted);
    forall k ensures Tainted(h, k) <==> Tainted(h.(spans := h.spans + [Span(verb, key, now, Open)]), k) {
      DispatchTaint(w, h, now, verb, key, k);
    }
  }

  lemma DispatchFlagsNew(w: World, h: History, now: nat, verb: Verb, key: Key, length: nat, aborted: bool)
    requires Invariant(w, h, now)
    requires IsMutation(verb)
    ensures var h' := h.(spans := h.spans + [Span(verb, key, now, Open)]);
      HasActive(w.journal.rows, key) <==> Overlapped(h'.spans, |h.spans|)
  {
    var spans' := h.spans + [Span(verb, key, now, Open)];
    var rows := w.journal.rows;
    if HasActive(rows, key) {
      var i :| 0 <= i < |rows| && ActiveOn(rows[i], key);
      assert Mirrors(rows[i], h.spans[i]);
      assert Overlap(spans', |h.spans|, i);
    }
    if Overlapped(spans', |h.spans|) {
      var j :| Overlap(spans', |h.spans|, j);
      assert Mirrors(rows[j], h.spans[j]);
      assert ActiveOn(rows[j], key);
    }
  }

  // ---- Backend effects -----------------------------------------------------------------------

  /** Two mutations in flight on one key are both flagged. */
  lemma InFlightTogether(w: World, h: History, now: nat, i: int, j: int)
    requires Invariant(w, h, now)
    requires 0 <= i < |w.journal.rows| && 0 <= j < |w.journal.rows| && i != j
    requires ActiveOn(w.journal.rows[i], w.journal.rows[j].key) && ActiveOn(w.journal.rows[j], w.journal.rows[j].key)
    ensures w.journal.rows[i].overlapped
  {
    assert Mirrors(w.journal.rows[i], h.spans[i]) && Mirrors(w.journal.rows[j], h.spans[j]);
    assert Overlap(h.spans, i, j);
  }

  lemma EffectKeeps(w: World, h: History, now: nat, op: nat)
    requires Invariant(w, h, now)
    requires Allowed(w, TookEffect(op))
    ensures Invariant(Next(w, TookEffect(op)), h, now + 1)
  {
    var w' := Next(w, TookEffect(op));
    var rows := w.journal.rows;
    assert ActiveAndApplied(w', op, rows[op].key);
    forall i | 0 <= i < |rows| && i in w'.applied && IsolatedInFlight(rows[i])
      ensures HoldsEffect(w'.backend, rows[i])
    {
      if i != op && rows[i].key == rows[op].key {
        InFlightTogether(w, h, now, i, op);
      }
    }
    forall k | k !in UncertainKeys(w'.journal) && !Agrees(w', k)
      ensures exists i :: ActiveAndApplied(w', i, k)
    {
      if k != rows[op].key {
        assert !Agrees(w, k);
        var i :| ActiveAndApplied(w, i, k);
        assert ActiveAndApplied(w', i, k);
      }
    }
  }

  // ---- Settlement ----------------------------------------------------------------------------

  /** Closing a span now leaves every overlap as it was: an open span already reached past now. */
  lemma SettleOverlaps(spans: seq<Span>, op: nat, now: nat, result: Result, i: int)
    requires op < |spans| && spans[op].end.Open?
    requires forall n :: 0 <= n < |spans| ==> spans[n].from < now
    ensures Overlapped(spans[op := spans[op].(end := Closed(now, result))], i) <==> Overlapped(spans, i)
  {
    var spans' := spans[op := spans[op].(end := Closed(now, result))];
    forall j ensures Overlap(spans', i, j) <==> Overlap(spans, i, j) {
    }
  }

  lemma SettlingRow(w: World, h: History, now: nat, op: nat, result: Result)
    requires Invariant(w, h, now)
    requires Allowed(w, Settled(op, result))
    ensures op < |h.spans| == |w.journal.rows| && Mirrors(w.journal.rows[op], h.spans[op])
    ensures IsMutation(w.journal.rows[op].verb) ==> (w.journal.rows[op].overlapped <==> Overlapped(h.spans, op))
  {
  }

  lemma SettleTaint(w: World, h: History, now: nat, op: nat, result: Result, key: Key)
    requires Invariant(w, h, now)
    requires Allowed(w, Settled(op, result))
    ensures var h' := h.(spans := h.spans[op := h.spans[op].(end := Closed(now, result))]);
      var row := w.journal.rows[op];
      Tainted(h', key) <==>
        if !IsMutation(row.verb) || row.key != key then Tainted(h, key)
        else if row.overlapped then true
        else if result == Returned then false
        else result != Threw(Conflict) || Tainted(h, key)
  {
    hide KnownIsTrue, AppliedIsVisible, UncertainIsTainted, KnownAndUncertainApart, FlagsAreOverlaps;
    SettlingRow(w, h, now, op, result);
    var h' := h.(spans := h.spans[op := h.spans[op].(end := Closed(now, result))]);
    var row := w.journal.rows[op];
    forall i ensures Overlapped(h'.spans, i) <==> Overlapped(h.spans, i) {
      SettleOverlaps(h.spans, op, now, result, i);
    }
    if !IsMutation(row.verb) || row.key != key {
      TaintUnchanged(h, h', key);
    } else if row.overlapped || (result.Threw? && result.error != Conflict) {
      assert Spoils(h'.spans, op, key);
      assert !RestoredAfter(h', key, h'.spans[op].end.at);
    } else if result == Returned {
      assert CleanSuccess(h'.spans, op, key);
      forall i | Spoils(h'.spans, i, key) ensures RestoredAfter(h', key, h'.spans[i].end.at) {
        assert i != op;
        assert h'.spans[i].end.at < h'.spans[op].end.at;
      }
    } else {
      forall i ensures Spoils(h'.spans, i, key) <==> Spoils(h.spans, i, key) {
      }
      forall i ensures CleanSuccess(h'.spans, i, key) <==> CleanSuccess(h.spans, i, key) {
      }
      forall i | Spoils(h.spans, i, key)
        ensures RestoredAfter(h', key, h'.spans[i].end.at) <==> RestoredAfter(h, key, h.spans[i].end.at)
      {
      }
    }
  }

  lemma SettleKnown(w: World, h: History, now: nat, op: nat, result: Result, key: Key)
    requires Invariant(w, h, now)
    requires Allowed(w, Settled(op, result))
    ensures var w' := w.(journal := Settle(w.journal, op, result));
      key in UncertainKeys(w'.journal) || Agrees(w', key) || exists i :: ActiveAndApplied(w', i, key)
  {
    hide UncertainIsTainted, FlagsAreOverlaps, RowsMirrorSpans;
    var w' := w.(journal := Settle(w.journal, op, result));
    var row := w.journal.rows[op];
    if !IsMutation(row.verb) || row.key != key {
      if key !in UncertainKeys(w.journal) && !Agrees(w, key) {
        var i :| ActiveAndApplied(w, i, key);
        assert ActiveAndApplied(w', i, key);
      }
    } else if !row.overlapped {
      assert IsolatedInFlight(row);
      forall i | i != op ensures !ActiveAndApplied(w, i, key) {
        if ActiveAndApplied(w, i, key) {
          InFlightTogether(w, h, now, op, i);
        }
      }
    }
  }

  lemma SettleFlags(w: World, h: History, now: nat, op: nat, result: Result)
    requires Invariant(w, h, now)
    requires Allowed(w, Settled(op, result))
    ensures FlagsAreOverlaps(
      Settle(w.journal, op, result),
      h.(spans := h.spans[op := h.spans[op].(end := Closed(now, result))]))
  {
    assert Mirrors(w.journal.rows[op], h.spans[op]);
    forall i
      ensures Overlapped(h.spans[op := h.spans[op].(end := Closed(now, result))], i) <==> Overlapped(h.spans, i)
    {
      SettleOverlaps(h.spans, op, now, result, i);
    }
  }

  lemma SettleBookkeeping(w: World, h: History, now: nat, op: nat, result: Result)
    requires Invariant(w, h, now)
    requires Allowed(w, Settled(op, result))
    ensures var w' := w.(journal := Settle(w.journal, op, result));
      && RowsMirrorSpans(w'.journal, h.(spans := h.spans[op := h.spans[op].(end := Closed(now, result))]), now + 1)
      && AppliedIsVisible(w') && KnownAndUncertainApart(w'.journal)
  {
    assert Mirrors(w.journal.rows[op], h.spans[op]);
  }

  lemma SettleKeeps(w: World, h: History, now: nat, op: nat, result: Result)
    requires Invariant(w, h, now)
    requires Allowed(w, Settled(op, result))
    ensures Invariant(
      w.(journal := Settle(w.journal, op, result)),
      h.(spans := h.spans[op := h.spans[op].(end := Closed(now, result))]), now + 1)
  {
    SettleBookkeeping(w, h, now, op, result);
    SettleFlags(w, h, now, op, result);
    SettleTaints(w, h, now, op, result);
    SettleKnowns(w, h, now, op, result);
  }

  lemma SettleTaints(w: World, h: History, now: nat, op: nat, result: Result)
    requires Invariant(w, h, now)
    requires Allowed(w, Settled(op, result))
    ensures UncertainIsTainted(
      Settle(w.journal, op, result),
      h.(spans := h.spans[op := h.spans[op].(end := Closed(now, result))]))
  {
    var h' := h.(spans := h.spans[op := h.spans[op].(end := Closed(now, result))]);
    forall k ensures k in UncertainKeys(Settle(w.journal, op, result)) <==> Tainted(h', k) {
      SettleTaint(w, h, now, op, result, k);
      assert k in UncertainKeys(w.journal) <==> Tainted(h, k);
    }
  }

  lemma SettleKnowns(w: World, h: History, now: nat, op: nat, result: Result)
    requires Invariant(w, h, now)
    requires Allowed(w, Settled(op, result))
    ensures KnownIsTrue(w.(journal := Settle(w.journal, op, result)))
  {
    var w' := w.(journal := Settle(w.journal, op, result));
    forall k ensures k in UncertainKeys(w'.journal) || Agrees(w', k) || exists i :: ActiveAndApplied(w', i, k) {
      SettleKnown(w, h, now, op, result, k);
    }
  }

  // ---- Provisioning --------------------------------------------------------------------------

  predicate Mentions(es: seq<(Key, nat)>, key: Key) {
    exists i :: 0 <= i < |es| && es[i].0 == key
  }

  /** The journal after provisioning and the backend after the same writes agree on every key named. */
  lemma {:induction false} ProvisionWrites(j: Journal, backend: map<Key, nat>, es: seq<(Key, nat)>, key: Key)
    ensures var j' := ProvisionAll(j, es); var b' := WriteAll(backend, es);
      if Mentions(es, key) then
        && key !in UncertainKeys(j') && key in j'.entries && key in b'
        && j'.entries[key].byteLength == b'[key]
      else
        && (key in UncertainKeys(j') <==> key in UncertainKeys(j))
        && (key in j'.entries <==> key in j.entries)
        && (key in j.entries ==> j'.entries[key] == j.entries[key])
        && (key in b' <==> key in backend)
        && (key in backend ==> b'[key] == backend[key])
  {
    if es != [] {
      var front := es[..|es| - 1];
      ProvisionWrites(j, backend, front, key);
      assert Mentions(es, key) <==> Mentions(front, key) || es[|es| - 1].0 == key by {
        if Mentions(es, key) && es[|es| - 1].0 != key {
          var i :| 0 <= i < |es| && es[i].0 == key;
          assert front[i].0 == key;
        }
        if Mentions(front, key) {
          var i :| 0 <= i < |front| && front[i].0 == key;
          assert es[i].0 == key;
        }
      }
    }
  }

  lemma ProvisionTaint(h: History, now: nat, es: seq<(Key, nat)>, key: Key)
    requires forall i :: 0 <= i < |h.spans| && h.spans[i].end.Closed? ==> h.spans[i].end.at < now
    ensures Tainted(h.(provisioned := Stamp(h.provisioned, es, now)), key) <==>
            Tainted(h, key) && !Mentions(es, key)
  {
  }

  lemma ProvisionKeeps(w: World, h: History, now: nat, es: seq<(Key, nat)>)
    requires Invariant(w, h, now) && Quiescent(w.journal)
    ensures Invariant(
      w.(journal := Provision(w.journal, es), backend := WriteAll(w.backend, es)),
      h.(provisioned := Stamp(h.provisioned, es, now)), now + 1)
  {
    var w' := w.(journal := Provision(w.journal, es), backend := WriteAll(w.backend, es));
    var h' := h.(provisioned := Stamp(h.provisioned, es, now));
    forall k ensures k in UncertainKeys(w'.journal) <==> Tainted(h', k) {
      ProvisionWrites(w.journal, w.backend, es, k);
      ProvisionTaint(h, now, es, k);
    }
    forall k ensures k !in UncertainKeys(w'.journal) ==> Agrees(w', k) {
      ProvisionWrites(w.journal, w.backend, es, k);
      assert forall i :: !ActiveAndApplied(w, i, k);
    }
    forall k | k in w'.journal.entries ensures k !in UncertainKeys(w'.journal) {
      ProvisionWrites(w.journal, w.backend, es, k);
    }
    assert FlagsAreOverlaps(w'.journal, h');
  }

  // ---- Every run -----------------------------------------------------------------------------

  lemma {:induction false} EveryRunKeepsInvariant(run: seq<Event>)
    requires After(run).Some?
    ensures Invariant(After(run).value, Observe(run), |run|)
  {
    if run == [] {
      assert forall key :: !Tainted(Observe(run), key);
    } else {
      var now := |run| - 1;
      EveryRunKeepsInvariant(run[..now]);
      var w, h := After(run[..now]).value, Observe(run[..now]);
      match run[now]
      case Dispatched(verb, key, length, aborted) => DispatchKeeps(w, h, now, verb, key, length, aborted);
      case TookEffect(op) => EffectKeeps(w, h, now, op);
      case Settled(op, result) => SettleKeeps(w, h, now, op, result);
      case Provisioned(es) =>
        assert AllClosed(h.spans) <==> Quiescent(w.journal) by {
          assert forall i :: 0 <= i < |h.spans| ==> Mirrors(w.journal.rows[i], h.spans[i]);
        }
        if Quiescent(w.journal) {
          ProvisionKeeps(w, h, now, es);
        }
    }
  }

  /**
   The snapshot is exact: with no call in flight, a key not reported uncertain is in the
   entries with the backend's own length, or in neither; and no entry is also uncertain.
   */
  lemma SnapshotIsExact(run: seq<Event>, key: Key)
    requires After(run).Some? && Quiescent(After(run).value.journal)
    ensures var w := After(run).value;
      && (key !in UncertainKeys(w.journal) ==>
            && (key in w.journal.entries <==> key in w.backend)
            && (key in w.backend ==> w.journal.entries[key].byteLength == w.backend[key]))
      && (key in UncertainKeys(w.journal) ==> key !in w.journal.entries)
  {
    EveryRunKeepsInvariant(run);
    var w := After(run).value;
    assert forall i :: !ActiveAndApplied(w, i, key);
    assert key !in UncertainKeys(w.journal) ==> Agrees(w, key);
  }

  /**
   A key is reported uncertain exactly when some settled mutation of it overlapped another one
   in time, or failed with anything but a conflict, and no isolated success and no provisioning
   of the key came later.
   */
  lemma UncertainExactlyWhenTainted(run: seq<Event>, key: Key)
    requires After(run).Some?
    ensures key in UncertainKeys(After(run).value.journal) <==> Tainted(Observe(run), key)
  {
    EveryRunKeepsInvariant(run);
  }
}

/** The decorator's mutable state. */
module StorageJournal {
  import opened Options
  import opened JournalModel

  class MutableRow {
    const index: nat
    const verb: Verb
    const key: Key
    const length: nat
    const abortedAtDispatch: bool
    var result: Option<Result>
    var namespaceOverlapped: bool

    constructor (index: nat, verb: Verb, key: Key, length: nat, abortedAtDispatch: bool)
      ensures this.index == index
      ensures Value() == Row(verb, key, length, abortedAtDispatch, false, None)
    {
      this.index, this.verb, this.key, this.length := index, verb, key, length;
      this.abortedAtDispatch := abortedAtDispatch;
      result, namespaceOverlapped := None, false;
    }

    function Value(): Row
      reads this
    {
      Row(verb, key, length, abortedAtDispatch, namespaceOverlapped, result)
    }
  }

  /** The rows hold these values. */
  ghost predicate Hold(rows: seq<MutableRow>, values: seq<Row>)
    reads rows
  {
    |rows| == |values| && forall i :: 0 <= i < |rows| ==> rows[i].Value() == values[i]
  }

  lemma HoldOneMore(rows: seq<MutableRow>, values: seq<Row>, row: MutableRow)
    requires Hold(rows, values)
    ensures Hold(rows + [row], values + [row.Value()])
  {
  }

  /** The values of rows of which some have been marked. */
  ghost function MarkedBy(rows: seq<MutableRow>, values: seq<Row>, active: set<MutableRow>): (r: seq<Row>)
    requires |rows| == |values|
    ensures |r| == |rows|
    ensures forall i :: 0 <= i < |r| ==>
      r[i] == if rows[i] in active then values[i].(overlapped := true) else values[i]
  {
    seq(|rows|, i requires 0 <= i < |rows| =>
      if rows[i] in active then values[i].(overlapped := true) else values[i])
  }

  datatype Snapshot =
    | NotQuiescent(pending: seq<nat>)
    | Namespace(exact: bool, entries: map<Key, Entry>, uncertainKeys: set<Key>)

  datatype Billing = Billing(classA: nat, classB: nat, free: nat)

  datatype BillingClass = A | B | Free

  function BillingClassOf(verb: Verb): BillingClass {
    if verb == Put || verb == List then A else if verb == Get then B else Free
  }

  /** The settled rows of one billing class. */
  ghost function SettledOf(rows: seq<Row>, class_: BillingClass): nat {
    if rows == [] then 0
    else
      SettledOf(rows[..|rows| - 1], class_) +
      if !Pending(rows[|rows| - 1]) && BillingClassOf(rows[|rows| - 1].verb) == class_ then 1 else 0
  }

  /** Every active set holds exactly the unsettled mutations of its key, and none is empty. */
  ghost predicate Registered(rows: seq<MutableRow>, values: seq<Row>, active: map<Key, set<MutableRow>>) {
    && |rows| == |values|
    && (forall i :: 0 <= i < |rows| ==> rows[i].index == i && rows[i].key == values[i].key)
    && (forall k :: k in active ==> active[k] != {})
    && (forall k, row :: k in active && row in active[k] ==>
          row.index < |rows| && rows[row.index] == row && ActiveOn(values[row.index], k))
    && (forall i :: 0 <= i < |rows| && ActiveOn(values[i], values[i].key) ==>
          rows[i].key in active && rows[i] in active[rows[i].key])
  }

  lemma RegisteredExactlyWhenActive(rows: seq<MutableRow>, values: seq<Row>,
                                    active: map<Key, set<MutableRow>>, key: Key)
    requires Registered(rows, values, active)
    ensures key in active <==> HasActive(values, key)
  {
    if key in active {
      var row :| row in active[key];
      assert ActiveOn(values[row.index], key);
    }
  }

  function ActiveSet(active: map<Key, set<MutableRow>>, key: Key): set<MutableRow> {
    if key in active then active[key] else {}
  }

  function Without(active: map<Key, set<MutableRow>>, row: MutableRow): map<Key, set<MutableRow>>
    requires row.key in active
  {
    if active[row.key] == {row} then active - {row.key}
    else active[row.key := active[row.key] - {row}]
  }

  /** Closing and unregistering a row keeps every other registration. */
  lemma ClosingKeepsRegistered(rows: seq<MutableRow>, values: seq<Row>,
                               active: map<Key, set<MutableRow>>, row: MutableRow, result: Result)
    requires Registered(rows, values, active)
    requires row.key in active && row in active[row.key]
    ensures Registered(rows, values[row.index := values[row.index].(result := Some(result))], Without(active, row))
  {
  }

  /** Registering a new row after marking the rows it overlaps. */
  lemma RegisteringKeepsRegistered(rows: seq<MutableRow>, values: seq<Row>,
                                   active: map<Key, set<MutableRow>>, row: MutableRow, value: Row)
    requires Registered(rows, values, active)
    requires row !in rows && row.index == |rows| && row.key == value.key && ActiveOn(value, row.key)
    ensures Registered(rows + [row], MarkOverlap(values, row.key) + [value],
      active[row.key := ActiveSet(active, row.key) + {row}])
  {
  }

  /** Marking the registered rows of a key is marking the active calls on it. */
  lemma MarkingRegistered(rows: seq<MutableRow>, values: seq<Row>,
                          active: map<Key, set<MutableRow>>, key: Key)
    requires Registered(rows, values, active)
    ensures forall i :: 0 <= i < |rows| ==>
      MarkOverlap(values, key)[i] ==
        if rows[i] in ActiveSet(active, key) then values[i].(overlapped := true) else values[i]
  {
    forall i | 0 <= i < |rows| ensures rows[i] in ActiveSet(active, key) <==> ActiveOn(values[i], key) {
      assert rows[i].index == i;
    }
  }

  /** The rows after one more mutation is dispatched, still registered. */
  lemma DispatchRegistered(j: Journal, rows: seq<MutableRow>, active: map<Key, set<MutableRow>>, row: MutableRow,
                           verb: Verb, length: nat, aborted: bool) returns (values: seq<Row>)
    requires Registered(rows, j.rows, active) && IsMutation(verb)
    requires row !in rows && row.index == |rows|
    ensures Dispatch(j, verb, row.key, length, aborted) == j.(rows := values)
    ensures values == MarkedBy(rows, j.rows, ActiveSet(active, row.key)) +
      [Row(verb, row.key, length, aborted, ActiveSet(active, row.key) != {}, None)]
    ensures Registered(rows + [row], values, active[row.key := ActiveSet(active, row.key) + {row}])
  {
    values := Dispatch(j, verb, row.key, length, aborted).rows;
    RegisteredExactlyWhenActive(rows, j.rows, active, row.key);
    RegisteringKeepsRegistered(rows, j.rows, active, row, values[|rows|]);
    MarkingRegistered(rows, j.rows, active, row.key);
    assert MarkOverlap(j.rows, row.key) == MarkedBy(rows, j.rows, ActiveSet(active, row.key));
  }

  lemma RegisteredIsAligned(rows: seq<MutableRow>, values: seq<Row>, active: map<Key, set<MutableRow>>)
    requires Registered(rows, values, active)
    ensures |rows| == |values|
  {
  }

  lemma ActiveAreRows(rows: seq<MutableRow>, values: seq<Row>, active: map<Key, set<MutableRow>>, key: Key)
    requires Registered(rows, values, active)
    ensures forall r :: r in ActiveSet(active, key) ==> r in rows
  {
    assert forall r :: r in ActiveSet(active, key) ==> rows[r.index] == r;
  }

  class Journaled {
    var rows: seq<MutableRow>
    var entries: map<Key, Entry>
    var uncertain: map<Key, Uncertainty>
    var activeMutations: map<Key, set<MutableRow>>
    var overlapUnknown: set<Key>
    var nextIndex: nat
    ghost var values: seq<Row>

    ghost predicate Valid()
      reads this, rows
    {
      nextIndex == |rows| && Hold(rows, values) && Registered(rows, values, activeMutations)
    }

    ghost predicate Holds(row: MutableRow)
      reads this
    {
      row.index < |rows| && rows[row.index] == row
    }

    ghost function View(): Journal
      reads this
    {
      Journal(values, entries, uncertain, overlapUnknown)
    }

    constructor ()
      ensures Valid() && View() == EMPTY
    {
      rows, entries, uncertain, activeMutations, overlapUnknown, nextIndex := [], map[], map[], map[], {}, 0;
      values := [];
    }

    /** A GET or the first pull on a LIST. */
    method DispatchRead(verb: Verb, key: Key, aborted: bool) returns (row: MutableRow)
      requires Valid() && !IsMutation(verb)
      modifies this
      ensures Valid() && fresh(row) && rows == old(rows) + [row]
      ensures View() == Dispatch(old(View()), verb, key, 0, aborted)
    {
      row := new MutableRow(nextIndex, verb, key, 0, aborted);
      nextIndex := nextIndex + 1;
      rows := rows + [row];
      values := values + [row.Value()];
    }

    method DispatchMutation(verb: Verb, key: Key, length: nat, aborted: bool) returns (row: MutableRow)
      requires Valid() && IsMutation(verb)
      modifies this, rows
      ensures Valid() && fresh(row) && rows == old(rows) + [row]
      ensures View() == Dispatch(old(View()), verb, key, length, aborted)
    {
      RegisteredIsAligned(rows, values, activeMutations);
      hide Dispatch, Registered, Hold, ActiveSet;
      ActiveAreRows(rows, values, activeMutations, key);
      row := new MutableRow(nextIndex, verb, key, length, aborted);
      nextIndex := nextIndex + 1;
      rows := rows + [row];
      BeginMutation(row, old(rows), values);
      HoldOneMore(old(rows), MarkedBy(old(rows), values, ActiveSet(old(activeMutations), key)), row);
      values := DispatchRegistered(old(View()), old(rows), old(activeMutations), row, verb, length, aborted);
    }

    /** Registers the row, tainting it and every mutation already active on its key. */
    method BeginMutation(row: MutableRow, ghost before: seq<MutableRow>, ghost held: seq<Row>)
      requires Hold(before, held)
      requires forall r :: r in ActiveSet(activeMutations, row.key) ==> r in before
      requires row !in before && !row.namespaceOverlapped
      modifies this`activeMutations, row`namespaceOverlapped, before
      ensures activeMutations ==
        old(activeMutations)[row.key := ActiveSet(old(activeMutations), row.key) + {row}]
      ensures Hold(before, MarkedBy(before, held, ActiveSet(old(activeMutations), row.key)))
      ensures row.Value() == old(row.Value()).(overlapped := ActiveSet(old(activeMutations), row.key) != {})
    {
      var active := if row.key in activeMutations then activeMutations[row.key] else {};
      if active != {} {
        row.namespaceOverlapped := true;
        MarkRows(active);
      }
      activeMutations := activeMutations[row.key := active + {row}];
    }

    method MarkRows(active: set<MutableRow>)
      modifies active
      ensures forall r :: r in active ==> r.Value() == old(r.Value()).(overlapped := true)
    {
      var rest := active;
      while rest != {}
        invariant rest <= active
        invariant forall r :: r in rest ==> r.Value() == old(r.Value())
        invariant forall r :: r in active - rest ==> r.Value() == old(r.Value()).(overlapped := true)
        decreases |rest|
      {
        var other :| other in rest;
        other.namespaceOverlapped := true;
        rest := rest - {other};
      }
    }

    /** A GET or LIST settles, by result, error or an early exit from the iteration. */
    method SettleRead(row: MutableRow, result: Result)
      requires Valid() && Holds(row) && Pending(row.Value()) && !IsMutation(row.verb)
      modifies this`values, row
      ensures Valid() && rows == old(rows)
      ensures View() == Settle(old(View()), row.index, result)
    {
      row.result := Some(result);
      values := values[row.index := row.Value()];
    }

    /** Unregisters the row.  False when it overlapped, in which case the key becomes unknown. */
    method FinishMutation(row: MutableRow) returns (isolated: bool)
      requires row.key in activeMutations && row in activeMutations[row.key]
      modifies this
      ensures isolated == !row.namespaceOverlapped
      ensures rows == old(rows) && nextIndex == old(nextIndex) && values == old(values) && uncertain == old(uncertain)
      ensures activeMutations == Without(old(activeMutations), row)
      ensures entries == if isolated then old(entries) else old(entries) - {row.key}
      ensures overlapUnknown == if isolated then old(overlapUnknown) else old(overlapUnknown) + {row.key}
    {
      var active := activeMutations[row.key] - {row};
      activeMutations := if active == {} then activeMutations - {row.key} else activeMutations[row.key := active];
      if row.namespaceOverlapped {
        entries := entries - {row.key};
        overlapUnknown := overlapUnknown + {row.key};
        return false;
      }
      return true;
    }

    /** A conflict leaves the key as it was; every other failure makes it unknown and says why. */
    method MarkUncertain(row: MutableRow, error: ErrorClass)
      modifies this
      ensures rows == old(rows) && nextIndex == old(nextIndex) && values == old(values)
      ensures activeMutations == old(activeMutations) && overlapUnknown == old(overlapUnknown)
      ensures entries == if error == Conflict then old(entries) else old(entries) - {row.key}
      ensures uncertain == if error == Conflict then old(uncertain)
        else old(uncertain)[row.key := Uncertainty(row.index, row.verb, error, row.abortedAtDispatch)]
    {
      if error == Conflict {
        return;
      }
      entries := entries - {row.key};
      uncertain := uncertain[row.key := Uncertainty(row.index, row.verb, error, row.abortedAtDispatch)];
    }

    method SettlePut(row: MutableRow, settled: Result)
      requires Valid() && Holds(row) && Pending(row.Value()) && row.verb == Put
      modifies this, row
      ensures Valid() && rows == old(rows)
      ensures View() == Settle(old(View()), row.index, settled)
    {
      assert ActiveOn(values[row.index], row.key);
      ClosingKeepsRegistered(rows, values, activeMutations, row, settled);
      var isolated := FinishMutation(row);
      row.result := Some(settled);
      values := values[row.index := row.Value()];
      match settled {
        case Threw(error) =>
          MarkUncertain(row, error);
        case Returned =>
          if isolated {
            uncertain := uncertain - {row.key};
            overlapUnknown := overlapUnknown - {row.key};
            entries := entries[row.key := Entry(row.length, Some(row.index))];
          }
      }
    }

    method SettleDelete(row: MutableRow, settled: Result)
      requires Valid() && Holds(row) && Pending(row.Value()) && row.verb == Delete
      modifies this, row
      ensures Valid() && rows == old(rows)
      ensures View() == Settle(old(View()), row.index, settled)
    {
      assert ActiveOn(values[row.index], row.key);
      ClosingKeepsRegistered(rows, values, activeMutations, row, settled);
      row.result := Some(settled);
      values := values[row.index := row.Value()];
      match settled {
        case Returned =>
          var isolated := FinishMutation(row);
          if isolated {
            entries := entries - {row.key};
            uncertain := uncertain - {row.key};
            overlapUnknown := overlapUnknown - {row.key};
          }
        case Threw(error) =>
          var _ := FinishMutation(row);
          MarkUncertain(row, error);
      }
    }

    /** Indices of the calls still in flight, in order. */
    method PendingOperations() returns (pending: seq<nat>)
      requires Valid()
      ensures forall i: nat :: i in pending <==> i < |rows| && Pending(rows[i].Value())
      ensures forall a, b :: 0 <= a < b < |pending| ==> pending[a] < pending[b]
      ensures pending == [] <==> Quiescent(View())
    {
      pending := [];
      for n := 0 to |rows|
        invariant forall i: nat :: i in pending <==> i < n && Pending(rows[i].Value())
        invariant forall a :: 0 <= a < |pending| ==> pending[a] < n
        invariant forall a, b :: 0 <= a < b < |pending| ==> pending[a] < pending[b]
      {
        if rows[n].result == None {
          pending := pending + [n];
        }
      }
      assert pending == [] ==> forall i: nat :: i < |rows| ==> i !in pending;
      assert pending != [] ==> pending[0] in pending;
    }

    /** Refuses while a call is in flight. */
    method SnapshotNamespace() returns (s: Snapshot)
      requires Valid()
      ensures s.NotQuiescent? <==> !Quiescent(View())
      ensures s.NotQuiescent? ==> forall i: nat :: i in s.pending <==> i < |rows| && Pending(rows[i].Value())
      ensures s.Namespace? ==>
        && s.entries == View().entries && s.uncertainKeys == UncertainKeys(View())
        && (s.exact <==> s.uncertainKeys == {})
    {
      var pending := PendingOperations();
      if pending != [] {
        return NotQuiescent(pending);
      }
      return Namespace(|uncertain| == 0 && |overlapUnknown| == 0, entries, uncertain.Keys + overlapUnknown);
    }

    method RecordProvisioned(provisioned: seq<(Key, nat)>) returns (recorded: bool)
      requires Valid()
      modifies this
      ensures Valid() && rows == old(rows)
      ensures recorded <==> old(Quiescent(View()))
      ensures View() == Provision(old(View()), provisioned)
    {
      var pending := PendingOperations();
      if pending != [] {
        return false;
      }
      for i := 0 to |provisioned|
        invariant rows == old(rows) && values == old(values) && nextIndex == old(nextIndex)
        invariant activeMutations == old(activeMutations)
        invariant View() == ProvisionAll(old(View()), provisioned[..i])
      {
        var (key, length) := provisioned[i];
        uncertain := uncertain - {key};
        overlapUnknown := overlapUnknown - {key};
        entries := entries[key := Entry(length, None)];
        assert provisioned[..i + 1][..i] == provisioned[..i];
      }
      assert provisioned[..|provisioned|] == provisioned;
      return true;
    }

    /** Counts settled calls only, each in exactly one class. */
    method BillingSummary() returns (b: Billing)
      requires Valid()
      ensures b == Billing(
        SettledOf(View().rows, A), SettledOf(View().rows, B), SettledOf(View().rows, Free))
    {
      var classA, classB, free := 0, 0, 0;
      ghost var all := View().rows;
      for n := 0 to |rows|
        invariant classA == SettledOf(all[..n], A)
        invariant classB == SettledOf(all[..n], B)
        invariant free == SettledOf(all[..n], Free)
      {
        assert all[..n + 1][..n] == all[..n];
        if rows[n].result != None {
          match BillingClassOf(rows[n].verb) {
            case A => classA := classA + 1;
            case B => classB := classB + 1;
            case Free => free := free + 1;
          }
        }
      }
      assert all[..|rows|] == all;
      return Billing(classA, classB, free);
    }
  }
}
