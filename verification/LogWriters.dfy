/**
 The three-step log writers: PUT the content, create the log object at the cursor if it is absent,
 then advance `tail_hint` with a compare-and-swap that reads `current.json` afresh.

 `LogModel` has any number of writers, each stopped at any step, and a compactor.  `LogRuns` proves
 what every run keeps, when a crash blocks all writers for good, and which compaction makes a hole.
 `LogBench` is the bench itself: the storage calls of one writer at a time, on its mutable state.
 */
module LogModel {

  /** Where a writer is in its loop: what the last storage call it made left it with. */
  datatype Phase =
    | Idle
    | HasCursor(cursor: nat)
    | ContentPut(cursor: nat)
    | Logged(cursor: nat)
    | CasRead(cursor: nat, etag: nat, seen: nat)
    | Committed
    | Checking(slot: nat)
    | Stopped

  /**
   `base` and `seed` are the first `log_seq_start` and `tail_hint`; `commits` counts the writers'
   compare-and-swaps that took effect, `discovered` what compaction added to the tail, and
   `missing` the safety checks that found no log object.
   */
  datatype World = World(
    content: set<nat>,
    logs: set<nat>,
    start: nat,
    tail: nat,
    etag: nat,
    writers: seq<Phase>,
    base: nat,
    seed: nat,
    commits: nat,
    discovered: nat,
    missing: nat)

  /** `Compact`: the certified tail and the end of the folded range. */
  datatype Event = Advance(writer: nat) | Crash(writer: nat) | Compact(probed: nat, foldEnd: nat)

  function Park(w: World, i: nat, phase: Phase): World
    requires i < |w.writers|
  {
    w.(writers := w.writers[i := phase])
  }

  function CheckSeq(start: nat, tail: nat): nat
    requires start <= tail
  {
    start + (tail - start) / 2
  }

  /** One storage call of writer `i`. */
  function Call(w: World, i: nat): World
    requires i < |w.writers|
  {
    match w.writers[i]
    case Idle => Park(w, i, HasCursor(w.tail))
    case HasCursor(cursor) => Park(w.(content := w.content + {cursor}), i, ContentPut(cursor))
    case ContentPut(cursor) =>
      if cursor in w.logs then Park(w, i, Idle)
      else Park(w.(logs := w.logs + {cursor}), i, Logged(cursor))
    case Logged(cursor) => Park(w, i, CasRead(cursor, w.etag, w.tail))
    case CasRead(_, etag, seen) =>
      if etag == w.etag then
        Park(w.(tail := seen + 1, etag := w.etag + 1, commits := w.commits + 1), i, Committed)
      else Park(w, i, Idle)
    case Committed =>
      if w.tail >= w.start + 2 then Park(w, i, Checking(CheckSeq(w.start, w.tail))) else Park(w, i, Idle)
    case Checking(slot) => Park(if slot in w.logs then w else w.(missing := w.missing + 1), i, Idle)
    case Stopped => w
  }

  /** Every slot from the stored tail up to the probed one is occupied. */
  predicate Probed(w: World, probed: nat) {
    w.tail <= probed && forall q: nat :: w.tail <= q < probed ==> q in w.logs
  }

  predicate Allowed(w: World, event: Event) {
    match event
    case Advance(i) => i < |w.writers|
    case Crash(i) => i < |w.writers|
    case Compact(probed, foldEnd) => Probed(w, probed) && w.start <= foldEnd <= probed
  }

  /**
   A compaction that wins its compare-and-swap.  `current.json` is then unchanged since it was read
   and log objects only ever appear, so its reads may be taken to happen at that moment.
   */
  function Next(w: World, event: Event): World
    requires Allowed(w, event)
  {
    match event
    case Advance(i) => Call(w, i)
    case Crash(i) => Park(w, i, Stopped)
    case Compact(probed, foldEnd) =>
      w.(start := foldEnd, tail := probed, etag := w.etag + 1, discovered := w.discovered + (probed - w.tail))
  }

  predicate Possible(w: World, events: seq<Event>)
    decreases |events|
  {
    events == [] || (Allowed(w, events[0]) && Possible(Next(w, events[0]), events[1..]))
  }

  function After(w: World, events: seq<Event>): World
    requires Possible(w, events)
    decreases |events|
  {
    if events == [] then w else After(Next(w, events[0]), events[1..])
  }

  /** The bench's beginning: every slot up to the tail is occupied and all writers are idle. */
  ghost predicate Initial(w: World) {
    && w.base == w.start <= w.seed == w.tail
    && w.commits == w.discovered == w.missing == 0
    && (forall q: nat :: q in w.logs <==> w.base <= q < w.tail)
    && forall i :: 0 <= i < |w.writers| ==> w.writers[i] == Idle
  }

  // ---- What every run keeps ---------------------------------------------------------------------

  /** Every slot from `lo` up to the tail holds a log object. */
  ghost predicate DenseFrom(w: World, lo: nat) {
    lo <= w.tail && forall q: nat :: lo <= q < w.tail ==> q in w.logs
  }

  /** Every slot of the visible range, and of what was visible before, holds a log object. */
  ghost predicate Dense(w: World) {
    w.base <= w.start && w.start <= w.tail && DenseFrom(w, w.base)
  }

  /** A log object above the range can only be the next one. */
  predicate Edged(w: World) {
    forall q :: q in w.logs ==> q <= w.tail
  }

  /** The writer's compare-and-swap would take effect. */
  predicate Holding(w: World, phase: Phase) {
    phase.Logged? || (phase.CasRead? && phase.etag == w.etag)
  }

  predicate PhaseOk(w: World, phase: Phase) {
    match phase
    case HasCursor(cursor) => w.base <= cursor <= w.tail
    case ContentPut(cursor) => w.base <= cursor <= w.tail && cursor in w.content
    case Logged(cursor) => cursor == w.tail && cursor in w.logs && cursor in w.content
    case CasRead(cursor, etag, seen) =>
      etag <= w.etag && (etag == w.etag ==> seen == cursor == w.tail && cursor in w.logs && cursor in w.content)
    case Checking(slot) => w.base <= slot < w.tail
    case _ => true
  }

  ghost predicate OneHolder(w: World) {
    forall i, j :: 0 <= i < j < |w.writers| ==> !(Holding(w, w.writers[i]) && Holding(w, w.writers[j]))
  }

  ghost predicate Invariant(w: World) {
    && Dense(w) && Edged(w) && OneHolder(w)
    && (forall i :: 0 <= i < |w.writers| ==> PhaseOk(w, w.writers[i]))
    && w.tail == w.seed + w.commits + w.discovered
    && w.missing == 0
  }

  /** A compaction that moves the tail while a writer stands between its log object and its read. */
  predicate Hazard(w: World, event: Event) {
    event.Compact? && event.probed > w.tail && exists i :: 0 <= i < |w.writers| && w.writers[i].Logged?
  }

  ghost predicate NoHazard(w: World, events: seq<Event>)
    requires Possible(w, events)
    decreases |events|
  {
    events == [] || (!Hazard(w, events[0]) && NoHazard(Next(w, events[0]), events[1..]))
  }
}

module LogRuns {

  import opened LogModel

  /** A writer moves and storage does not: it holds nothing it did not hold. */
  lemma ParkKeeps(w: World, i: nat, phase: Phase)
    requires Invariant(w) && i < |w.writers| && PhaseOk(w, phase)
    requires Holding(w, phase) ==> Holding(w, w.writers[i])
    ensures Invariant(Park(w, i, phase))
  {
  }

  lemma ContentKeeps(w: World, cursor: nat)
    requires Invariant(w)
    ensures Invariant(w.(content := w.content + {cursor}))
  {
  }

  /** Nobody else can be about to advance the tail when a log object is created. */
  lemma LogKeeps(w: World, i: nat, cursor: nat)
    requires Invariant(w) && i < |w.writers| && w.writers[i] == ContentPut(cursor) && cursor !in w.logs
    ensures Invariant(Park(w.(logs := w.logs + {cursor}), i, Logged(cursor)))
  {
  }

  lemma SwapKeeps(w: World, i: nat)
    requires Invariant(w) && i < |w.writers| && w.writers[i].CasRead? && w.writers[i].etag == w.etag
    ensures Invariant(Call(w, i))
  {
  }

  lemma CallKeeps(w: World, i: nat)
    requires Invariant(w) && i < |w.writers|
    ensures Invariant(Call(w, i))
  {
    hide Invariant;
    CallCases(w, i);
    match w.writers[i] {
      case ContentPut(cursor) => if cursor !in w.logs { LogKeeps(w, i, cursor); } else { ParkKeeps(w, i, Idle); }
      case CasRead(_, etag, _) => if etag == w.etag { SwapKeeps(w, i); } else { ParkKeeps(w, i, Idle); }
      case HasCursor(cursor) =>
        ContentKeeps(w, cursor);
        ParkKeeps(w.(content := w.content + {cursor}), i, ContentPut(cursor));
      case Stopped =>
      case _ => ParkKeeps(w, i, Call(w, i).writers[i]);
    }
  }

  lemma CallCases(w: World, i: nat)
    requires Invariant(w) && i < |w.writers|
    ensures PhaseOk(w, w.writers[i])
    ensures w.writers[i] == Idle ==> PhaseOk(w, HasCursor(w.tail))
    ensures w.writers[i].Checking? ==> w.writers[i].slot in w.logs
    ensures w.start <= w.tail && w.base <= w.start
  {
  }

  lemma NobodyHolds(w: World)
    requires Invariant(w) && w.tail !in w.logs
    ensures forall i :: 0 <= i < |w.writers| ==> !Holding(w, w.writers[i])
  {
  }

  lemma CompactKeeps(w: World, probed: nat, foldEnd: nat)
    requires Invariant(w) && Allowed(w, Compact(probed, foldEnd)) && !Hazard(w, Compact(probed, foldEnd))
    ensures Invariant(Next(w, Compact(probed, foldEnd)))
  {
  }

  lemma {:induction false} EveryRunKeepsInvariant(w: World, events: seq<Event>)
    requires Invariant(w) && Possible(w, events) && NoHazard(w, events)
    ensures Invariant(After(w, events))
    decreases |events|
  {
    if events != [] {
      match events[0] {
        case Advance(i) => CallKeeps(w, i);
        case Crash(i) => ParkKeeps(w, i, Stopped);
        case Compact(probed, foldEnd) => CompactKeeps(w, probed, foldEnd);
      }
      EveryRunKeepsInvariant(Next(w, events[0]), events[1..]);
    }
  }

  lemma InitialHolds(w: World)
    requires Initial(w)
    ensures Invariant(w)
  {
  }

  /** From the start, in every run without a hazard, crashes anywhere. */
  lemma RunsAreSafe(w: World, events: seq<Event>)
    requires Initial(w) && Possible(w, events) && NoHazard(w, events)
    ensures
      var end := After(w, events);
      && (forall q: nat :: end.start <= q < end.tail ==> q in end.logs)
      && (forall q :: q in end.logs && q >= end.tail ==> q == end.tail)
      && end.tail == end.seed + end.commits + end.discovered
      && end.missing == 0
  {
    InitialHolds(w);
    EveryRunKeepsInvariant(w, events);
  }

  predicate WritersOnly(events: seq<Event>) {
    forall k :: 0 <= k < |events| ==> !events[k].Compact?
  }

  lemma {:induction false} WritersAloneAreNoHazard(w: World, events: seq<Event>)
    requires Possible(w, events) && WritersOnly(events)
    ensures NoHazard(w, events)
    ensures After(w, events).discovered == w.discovered && After(w, events).seed == w.seed
    decreases |events|
  {
    if events != [] {
      assert !events[0].Compact?;
      WritersAloneAreNoHazard(Next(w, events[0]), events[1..]);
    }
  }

  /** Without compaction the tail counts the writers' commits, whatever crashes. */
  lemma TailCountsCommits(w: World, events: seq<Event>)
    requires Initial(w) && Possible(w, events) && WritersOnly(events)
    ensures After(w, events).tail == w.seed + After(w, events).commits
  {
    WritersAloneAreNoHazard(w, events);
    RunsAreSafe(w, events);
  }

  // ---- The hazard ---------------------------------------------------------------------------------

  /**
   A compaction that moves the tail up to a free slot can be followed by a hole, with no further
   compaction, exactly when some writer then stands between its log object and its read.
   */
  lemma HazardExactly(w: World, probed: nat, foldEnd: nat)
    requires Invariant(w) && Allowed(w, Compact(probed, foldEnd))
    requires w.tail < probed && probed !in w.logs
    ensures
      var next := Next(w, Compact(probed, foldEnd));
      Hazard(w, Compact(probed, foldEnd)) <==>
      exists events :: WritersOnly(events) && Possible(next, events) && !Dense(After(next, events))
  {
    var next := Next(w, Compact(probed, foldEnd));
    if Hazard(w, Compact(probed, foldEnd)) {
      var i :| 0 <= i < |w.writers| && w.writers[i].Logged?;
      var events := [Advance(i), Advance(i)];
      var read := Call(next, i);
      var swapped := Call(read, i);
      assert events[1..] == [Advance(i)] && events[1..][1..] == [];
      assert Possible(swapped, []);
      assert Possible(read, events[1..]);
      assert After(next, events) == After(read, events[1..]) == After(swapped, []) == swapped;
      assert swapped.tail == probed + 1 && probed !in swapped.logs;
      assert WritersOnly(events) && Possible(next, events) && !Dense(After(next, events));
    } else {
      forall events | WritersOnly(events) && Possible(next, events) ensures Dense(After(next, events)) {
        CompactKeeps(w, probed, foldEnd);
        WritersAloneAreNoHazard(next, events);
        EveryRunKeepsInvariant(next, events);
      }
    }
  }

  // ---- Blocked for good -----------------------------------------------------------------------------

  /** The next slot is taken and nobody is left to advance the tail past it. */
  predicate Orphaned(w: World) {
    w.tail in w.logs && forall i :: 0 <= i < |w.writers| ==> !Holding(w, w.writers[i])
  }

  lemma StaysOrphaned(w: World, event: Event)
    requires Invariant(w) && Orphaned(w) && Allowed(w, event) && !event.Compact?
    ensures
      var next := Next(w, event);
      Orphaned(next) && next.tail == w.tail && next.logs == w.logs && next.commits == w.commits
  {
  }

  lemma {:induction false} OrphanBlocks(w: World, events: seq<Event>)
    requires Invariant(w) && Orphaned(w) && Possible(w, events) && WritersOnly(events)
    ensures After(w, events).commits == w.commits && After(w, events).tail == w.tail
    decreases |events|
  {
    hide Invariant, Orphaned;
    if events != [] {
      assert !events[0].Compact?;
      StaysOrphaned(w, events[0]);
      EveryRunKeepsInvariant(w, [events[0]]) by { OneEvent(w, events[0]); }
      OneEvent(w, events[0]);
      OrphanBlocks(Next(w, events[0]), events[1..]);
    }
  }

  lemma OneEvent(w: World, event: Event)
    requires Allowed(w, event) && !event.Compact?
    ensures Possible(w, [event]) && NoHazard(w, [event]) && After(w, [event]) == Next(w, event)
  {
  }

  /** `n` storage calls of one writer, nobody else moving. */
  function Calls(w: World, i: nat, n: nat): (end: World)
    requires i < |w.writers|
    ensures |end.writers| == |w.writers|
    decreases n
  {
    if n == 0 then w else Calls(Call(w, i), i, n - 1)
  }

  function Solo(i: nat, n: nat): (events: seq<Event>)
    ensures |events| == n
  {
    if n == 0 then [] else [Advance(i)] + Solo(i, n - 1)
  }

  lemma {:induction false} SoloIsARun(w: World, i: nat, n: nat)
    requires i < |w.writers|
    ensures Possible(w, Solo(i, n)) && WritersOnly(Solo(i, n)) && After(w, Solo(i, n)) == Calls(w, i, n)
    decreases n
  {
    if n > 0 {
      SoloIsARun(Call(w, i), i, n - 1);
      assert Solo(i, n)[1..] == Solo(i, n - 1);
    }
  }

  lemma Twice(w: World, i: nat, m: nat, n: nat)
    requires i < |w.writers|
    ensures Calls(Calls(w, i, m), i, n) == Calls(w, i, m + n)
    decreases m
  {
    if m > 0 {
      Twice(Call(w, i), i, m - 1, n);
    }
  }

  lemma IdleCommits(w: World, i: nat)
    requires i < |w.writers| && w.writers[i].Idle? && w.tail !in w.logs
    ensures Calls(w, i, 5).commits == w.commits + 1
  {
  }

  lemma HolderCommits(w: World, i: nat)
    requires i < |w.writers| && Holding(w, w.writers[i])
    ensures exists n: nat :: n <= 2 && Calls(w, i, n).commits == w.commits + 1
  {
    var w1 := Call(w, i);
    if w.writers[i].CasRead? {
      assert Calls(w, i, 1) == Calls(w1, i, 0);
    } else {
      assert Calls(w, i, 2) == Calls(w1, i, 1) == Calls(Call(w1, i), i, 0);
    }
  }

  predicate CommittedOrIdle(w: World, i: nat, end: World)
    requires i < |w.writers| == |end.writers|
  {
    end.commits == w.commits + 1 ||
    (end.writers[i].Idle? && end.tail == w.tail && end.tail !in end.logs && end.commits == w.commits)
  }

  /** A live writer that holds nothing is idle again, or has committed, within four calls. */
  lemma LiveComesAround(w: World, i: nat)
    requires Invariant(w) && i < |w.writers| && !w.writers[i].Stopped? && w.tail !in w.logs
    ensures exists n: nat :: n <= 4 && CommittedOrIdle(w, i, Calls(w, i, n))
  {
    NobodyHolds(w);
    var w1 := Call(w, i);
    var w2 := Call(w1, i);
    var w3 := Call(w2, i);
    var w4 := Call(w3, i);
    assert Calls(w, i, 0) == w && Calls(w, i, 1) == Calls(w1, i, 0) == w1;
    assert Calls(w, i, 2) == Calls(w1, i, 1) == Calls(w2, i, 0) == w2;
    assert Calls(w, i, 3) == Calls(w1, i, 2) == Calls(w2, i, 1) == Calls(w3, i, 0) == w3;
    assert Calls(w, i, 4) == Calls(w1, i, 3) == Calls(w2, i, 2) == Calls(w3, i, 1) == Calls(w4, i, 0) == w4;
    assert PhaseOk(w, w.writers[i]);
  }

  lemma LiveCommits(w: World, i: nat)
    requires Invariant(w) && i < |w.writers| && !w.writers[i].Stopped? && w.tail !in w.logs
    ensures exists n: nat :: Calls(w, i, n).commits > w.commits
  {
    hide Invariant;
    LiveComesAround(w, i);
    var n: nat :| n <= 4 && CommittedOrIdle(w, i, Calls(w, i, n));
    if Calls(w, i, n).commits == w.commits {
      IdleCommits(Calls(w, i, n), i);
      Twice(w, i, n, 5);
    }
  }

  /**
   No commit is possible any more, short of a compaction, exactly when the next slot is orphaned
   or every writer has stopped.
   */
  lemma BlockedExactly(w: World)
    requires Invariant(w)
    ensures
      Orphaned(w) || (forall i :: 0 <= i < |w.writers| ==> w.writers[i].Stopped?) <==>
      (forall events :: WritersOnly(events) && Possible(w, events) ==> After(w, events).commits == w.commits)
  {
    if Orphaned(w) {
      forall events | WritersOnly(events) && Possible(w, events) ensures After(w, events).commits == w.commits {
        OrphanBlocks(w, events);
      }
    } else if forall i :: 0 <= i < |w.writers| ==> w.writers[i].Stopped? {
      forall events | WritersOnly(events) && Possible(w, events) ensures After(w, events).commits == w.commits {
        StoppedStayStopped(w, events);
      }
    } else if w.tail in w.logs {
      var i :| 0 <= i < |w.writers| && Holding(w, w.writers[i]);
      HolderCommits(w, i);
      var n: nat :| n <= 2 && Calls(w, i, n).commits == w.commits + 1;
      SoloIsARun(w, i, n);
      assert After(w, Solo(i, n)).commits != w.commits;
    } else {
      var i :| 0 <= i < |w.writers| && !w.writers[i].Stopped?;
      LiveCommits(w, i);
      var n: nat :| Calls(w, i, n).commits > w.commits;
      SoloIsARun(w, i, n);
      assert After(w, Solo(i, n)).commits != w.commits;
    }
  }

  lemma {:induction false} StoppedStayStopped(w: World, events: seq<Event>)
    requires forall i :: 0 <= i < |w.writers| ==> w.writers[i].Stopped?
    requires WritersOnly(events) && Possible(w, events)
    ensures After(w, events).commits == w.commits
    decreases |events|
  {
    if events != [] {
      assert !events[0].Compact?;
      StoppedStayStopped(Next(w, events[0]), events[1..]);
    }
  }

  /** Killed between its log object and its compare-and-swap, a writer blocks all the others. */
  lemma CrashAfterLogOrphans(w: World, i: nat)
    requires Invariant(w) && i < |w.writers| && Holding(w, w.writers[i])
    ensures Orphaned(Next(w, Crash(i)))
  {
  }

  /** A compaction past the orphan frees the writers. */
  lemma CompactionUnblocks(w: World, foldEnd: nat)
    requires Invariant(w) && Orphaned(w) && w.start <= foldEnd <= w.tail + 1
    ensures
      var event := Compact(w.tail + 1, foldEnd);
      Allowed(w, event) && !Hazard(w, event) &&
      Next(w, event).tail !in Next(w, event).logs && Invariant(Next(w, event))
  {
  }

  // ---- The child that is told its slot ------------------------------------------------------------------

  function FirstFree(w: World): nat {
    if w.tail in w.logs then w.tail + 1 else w.tail
  }

  /** The crash harness's child: its slot comes from outside, not from `current.json`. */
  function Child(w: World, i: nat, slot: nat, calls: nat): World
    requires i < |w.writers|
  {
    Calls(Park(w, i, HasCursor(slot)), i, calls)
  }

  /**
   Run to its end over a log that is dense from `lo` on, the child leaves it dense and edged exactly when
   its slot is the first free one.
   */
  lemma ChildNeedsTheFirstFreeSlot(w: World, i: nat, slot: nat, lo: nat)
    requires DenseFrom(w, lo) && Edged(w) && i < |w.writers| && lo <= slot && slot !in w.logs
    ensures
      var end := Child(w, i, slot, 4);
      DenseFrom(end, lo) && Edged(end) <==> slot == FirstFree(w)
    ensures Child(w, i, slot, 4).tail == w.tail + 1
    ensures Child(w, i, slot, 4).logs == w.logs + {slot}
  {
  }

  /** A `current.json` that an earlier trial left, its log objects deleted, before the child of the next slot. */
  const STALE := World({}, {}, 0, 10_000, 0, [Idle], 0, 10_000, 0, 0, 0)

  /** The tail then passes slot 10000, which nobody wrote; over the record of its own trial it would not. */
  lemma StaleRecordLeavesAHole()
    ensures
      var end := Child(STALE, 0, 10_001, 4);
      end.tail == 10_001 && end.logs == {10_001} && !DenseFrom(end, 10_000)
    ensures DenseFrom(Child(STALE, 0, 10_000, 4), 10_000) && Child(STALE, 0, 10_000, 4).tail == 10_001
  {
    ChildNeedsTheFirstFreeSlot(STALE, 0, 10_001, 10_000);
    ChildNeedsTheFirstFreeSlot(STALE, 0, 10_000, 10_000);
  }

  /**
   Killed after its second step, over any log, the child leaves its log object and the record as it was;
   the next slot is orphaned exactly when it is taken now and no other writer is about to advance the tail.
   */
  lemma ChildKilledAfterLog(w: World, i: nat, slot: nat)
    requires i < |w.writers| && slot !in w.logs
    ensures
      var killed := Park(Child(w, i, slot, 2), i, Stopped);
      && killed.tail == w.tail && killed.start == w.start && killed.etag == w.etag
      && killed.logs == w.logs + {slot} && killed.content == w.content + {slot}
      && (Orphaned(killed) <==>
          w.tail in w.logs + {slot} &&
          forall j :: 0 <= j < |w.writers| && j != i ==> !Holding(w, w.writers[j]))
  {
    var killed := Park(Child(w, i, slot, 2), i, Stopped);
    assert Calls(Call(Park(w, i, HasCursor(slot)), i), i, 1) == Child(w, i, slot, 2);
    assert killed.writers == w.writers[i := Stopped];
    assert forall j :: 0 <= j < |w.writers| && j != i ==> killed.writers[j] == w.writers[j];
    assert killed.tail in killed.logs <==> w.tail in w.logs + {slot};
    assert forall j :: 0 <= j < |w.writers| ==> (Holding(killed, killed.writers[j]) <==>
      j != i && Holding(w, w.writers[j]));
  }
}

module LogBench {

  import opened LogModel

  /** The bench's bucket and its writers, changed by one storage call at a time. */
  class Bench {
    var content: set<nat>
    var logs: set<nat>
    var start: nat
    var tail: nat
    var etag: nat
    var writers: array<Phase>
    var writesCommitted: nat
    var missingOnRead: nat
    ghost const base: nat
    ghost const seed: nat
    ghost var discovered: nat

    ghost function View(): World
      reads this, writers
    {
      World(content, logs, start, tail, etag, writers[..], base, seed, writesCommitted, discovered, missingOnRead)
    }

    /** The seeded `current.json`, an empty log, and `n` writers about to begin. */
    constructor (n: nat)
      ensures fresh(writers) && writers.Length == n && Initial(View())
      ensures View().start == View().tail == 0
    {
      content := {};
      logs := {};
      start := 0;
      tail := 0;
      etag := 0;
      writers := new Phase[n](_ => Idle);
      writesCommitted := 0;
      missingOnRead := 0;
      base := 0;
      seed := 0;
      discovered := 0;
    }

    /** PUT with if-none-match. */
    method CreateLog(slot: nat) returns (created: bool)
      modifies this`logs
      ensures created == (slot !in old(logs)) && logs == old(logs) + {slot}
    {
      created := slot !in logs;
      if created {
        logs := logs + {slot};
      } else {
        assert logs == logs + {slot};
      }
    }

    /** PUT of `current.json` with if-match, the tail advanced from what was read. */
    method SwapTail(read: nat, seen: nat) returns (won: bool)
      modifies this`tail, this`etag
      ensures won == (read == old(etag))
      ensures tail == (if won then seen + 1 else old(tail)) && etag == (if won then old(etag) + 1 else old(etag))
    {
      won := read == etag;
      if won {
        tail, etag := seen + 1, etag + 1;
      }
    }

    method Advance(i: nat)
      requires i < writers.Length
      modifies this, writers
      ensures writers == old(writers)
      ensures View() == Next(old(View()), LogModel.Advance(i))
    {
      ghost var before := writers[..];
      var phase := writers[i];
      match phase {
        case Idle =>
          writers[i] := HasCursor(tail);
        case HasCursor(cursor) =>
          content := content + {cursor};
          writers[i] := ContentPut(cursor);
        case ContentPut(cursor) =>
          var created := CreateLog(cursor);
          writers[i] := if created then Logged(cursor) else Idle;
          if !created {
            assert logs == old(logs);
          }
        case Logged(cursor) =>
          writers[i] := CasRead(cursor, etag, tail);
        case CasRead(cursor, read, seen) =>
          var won := SwapTail(read, seen);
          if won {
            writesCommitted := writesCommitted + 1;
          }
          writers[i] := if won then Committed else Idle;
        case Committed =>
          writers[i] := if tail >= start + 2 then Checking(CheckSeq(start, tail)) else Idle;
        case Checking(slot) =>
          if slot !in logs {
            missingOnRead := missingOnRead + 1;
          }
          writers[i] := Idle;
        case Stopped =>
          writers[i] := Stopped;
      }
      assert writers[..] == before[i := writers[i]];
    }

    /** The process is killed, whatever it was doing. */
    method Kill(i: nat)
      requires i < writers.Length
      modifies writers
      ensures View() == Next(old(View()), Crash(i))
    {
      ghost var before := writers[..];
      writers[i] := Stopped;
      assert writers[..] == before[i := Stopped];
    }

    /** A compaction folds at most `maxPerRun` entries and stamps the first free slot it finds. */
    method Fold(maxPerRun: nat) returns (probed: nat, foldEnd: nat)
      requires start <= tail
      modifies this`start, this`tail, this`etag, this`discovered
      ensures Allowed(old(View()), Compact(probed, foldEnd)) && probed !in logs
      ensures foldEnd == if probed <= old(start) + maxPerRun then probed else old(start) + maxPerRun
      ensures View() == Next(old(View()), Compact(probed, foldEnd))
    {
      probed := tail;
      ghost var above := set q | q in logs && q >= tail;
      while probed in logs
        invariant tail <= probed && forall q: nat :: tail <= q < probed ==> q in logs
        invariant above == set q | q in logs && q >= probed
        decreases above
      {
        assert probed in above;
        probed := probed + 1;
        above := set q | q in logs && q >= probed;
        assert probed - 1 !in above;
      }
      foldEnd := if probed <= start + maxPerRun then probed else start + maxPerRun;
      discovered := discovered + (probed - tail);
      start, tail, etag := foldEnd, probed, etag + 1;
    }
  }
}
