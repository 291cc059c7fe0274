/**
 The unattended capture runner: which invocations are planned, which of them a journal still owes
 after a crash, and when each may start.
 */
module CapturePlan {

  import opened UnicodeText

  datatype Cell = Cell(scenarioId: Text, fixturePrefix: Text)

  /** A planned invocation; `index` is its position in the serial order. */
  datatype Invocation = Invocation(
    scenarioId: Text, implementation: Text, fixturePrefix: Text, warmup: bool, index: nat)

  /** What a journal record says about the slot it belongs to. */
  datatype Slot = Slot(scenarioId: Text, implementation: Text, warmup: bool)

  function SlotOf(invocation: Invocation): Slot {
    Slot(invocation.scenarioId, invocation.implementation, invocation.warmup)
  }

  // ---- Slot keys ---------------------------------------------------------------------------------

  const TRUE_TEXT: Text := [0x74, 0x72, 0x75, 0x65]
  const FALSE_TEXT: Text := [0x66, 0x61, 0x6C, 0x73, 0x65]

  function SlotKey(slot: Slot): Text {
    slot.scenarioId + [0] + slot.implementation + [0] + (if slot.warmup then TRUE_TEXT else FALSE_TEXT)
  }

  predicate NulFree(t: Text) {
    0 !in t
  }

  lemma LastNul(a: Text, x: Text)
    requires NulFree(x)
    ensures (a + [0] + x)[|a|] == 0
    ensures forall k :: |a| < k < |a + [0] + x| ==> (a + [0] + x)[k] != 0
  {
  }

  lemma LastNulDivides(a: Text, x: Text, b: Text, y: Text)
    requires a + [0] + x == b + [0] + y && NulFree(x) && NulFree(y)
    ensures a == b && x == y
  {
    LastNul(a, x);
    LastNul(b, y);
    var s := a + [0] + x;
    assert |a| == |b|;
    assert a == s[..|a|] && b == s[..|b|];
    assert x == s[|a| + 1..] && y == s[|b| + 1..];
  }

  /** Slot keys never collide, whatever the scenario id contains. */
  lemma SlotKeysNeverCollide(a: Slot, b: Slot)
    requires NulFree(a.implementation) && NulFree(b.implementation)
    requires SlotKey(a) == SlotKey(b)
    ensures a == b
  {
    LastNulDivides(a.scenarioId + [0] + a.implementation, if a.warmup then TRUE_TEXT else FALSE_TEXT,
                   b.scenarioId + [0] + b.implementation, if b.warmup then TRUE_TEXT else FALSE_TEXT);
    LastNulDivides(a.scenarioId, a.implementation, b.scenarioId, b.implementation);
    assert TRUE_TEXT[0] != FALSE_TEXT[0];
  }

  // ---- The plan ----------------------------------------------------------------------------------

  /** The position of pass `pass` of arm `a` on cell `c`. */
  function Position(arms: nat, cells: nat, pass: nat, a: nat, c: nat): nat {
    (pass * arms + a) * cells + c
  }

  /** The invocation at a position, read off the position alone. */
  function PlannedAt(cells: seq<Cell>, arms: seq<Text>, warmup: nat, k: nat): Invocation
    requires cells != [] && arms != []
  {
    var round := k / |cells|;
    Invocation(cells[k % |cells|].scenarioId, arms[round % |arms|], cells[k % |cells|].fixturePrefix,
               round / |arms| < warmup, k)
  }

  function Plan(cells: seq<Cell>, arms: seq<Text>, warmup: nat, measured: nat): (plan: seq<Invocation>)
    ensures |plan| == Position(|arms|, |cells|, warmup + measured, 0, 0)
  {
    if cells == [] || arms == [] then NoWork(|arms|, |cells|, warmup + measured); []
    else
      seq(Position(|arms|, |cells|, warmup + measured, 0, 0), k requires k >= 0 => PlannedAt(cells, arms, warmup, k))
  }

  lemma NoWork(arms: nat, cells: nat, passes: nat)
    requires arms == 0 || cells == 0
    ensures Position(arms, cells, passes, 0, 0) == 0
  {
  }

  lemma PositionDecomposes(arms: nat, cells: nat, pass: nat, a: nat, c: nat)
    requires a < arms && c < cells
    ensures
      var k := Position(arms, cells, pass, a, c);
      k % cells == c && k / cells == pass * arms + a && (k / cells) % arms == a && (k / cells) / arms == pass
  {
    var round := pass * arms + a;
    DivideBack(round, cells, c);
    DivideBack(pass, arms, a);
  }

  lemma DivideBack(q: nat, d: nat, r: nat)
    requires r < d
    ensures (q * d + r) / d == q && (q * d + r) % d == r
  {
    var n := q * d + r;
    assert n == d * (n / d) + n % d;
    if n / d < q {
      Scaled(d, n / d, q - 1);
    } else if n / d > q {
      Scaled(d, q + 1, n / d);
    }
  }

  lemma Scaled(d: nat, x: nat, y: nat)
    requires x <= y
    ensures d * x <= d * y
  {
  }

  method PlanCaptureInvocations(cells: seq<Cell>, arms: seq<Text>, warmup: nat, measured: nat)
    returns (result: seq<Invocation>)
    ensures result == Plan(cells, arms, warmup, measured)
  {
    result := [];
    var totalPasses := warmup + measured;
    var C, A := |cells|, |arms|;
    for pass := 0 to totalPasses
      invariant |result| == Position(A, C, pass, 0, 0)
      invariant forall k :: 0 <= k < |result| ==> C > 0 && A > 0 && result[k] == PlannedAt(cells, arms, warmup, k)
    {
      for a := 0 to A
        invariant |result| == Position(A, C, pass, a, 0)
        invariant forall k :: 0 <= k < |result| ==> C > 0 && A > 0 && result[k] == PlannedAt(cells, arms, warmup, k)
      {
        for c := 0 to C
          invariant |result| == Position(A, C, pass, a, c)
          invariant forall k :: 0 <= k < |result| ==> C > 0 && A > 0 && result[k] == PlannedAt(cells, arms, warmup, k)
        {
          PositionDecomposes(A, C, pass, a, c);
          result := result + [Invocation(cells[c].scenarioId, arms[a], cells[c].fixturePrefix,
                                         pass < warmup, |result|)];
        }
        NextArm(A, C, pass, a);
      }
      NextPass(A, C, pass);
    }
    if C == 0 || A == 0 {
      NoWork(A, C, totalPasses);
    }
  }

  lemma NextArm(arms: nat, cells: nat, pass: nat, a: nat)
    ensures Position(arms, cells, pass, a, cells) == Position(arms, cells, pass, a + 1, 0)
  {
  }

  lemma NextPass(arms: nat, cells: nat, pass: nat)
    ensures Position(arms, cells, pass, arms, 0) == Position(arms, cells, pass + 1, 0, 0)
  {
  }

  lemma PositionsRise(arms: nat, cells: nat, pass: nat, a: nat, c: nat, passes: nat)
    requires a < arms && c < cells && pass < passes
    ensures Position(arms, cells, pass, a, c) < Position(arms, cells, passes, 0, 0)
  {
    var round := pass * arms + a;
    Scaled(arms, pass + 1, passes);
    assert arms * (pass + 1) == pass * arms + arms && arms * passes == passes * arms;
    assert round + 1 <= passes * arms;
    Scaled(cells, round + 1, passes * arms);
    assert cells * (round + 1) == round * cells + cells && cells * (passes * arms) == passes * arms * cells;
  }

  /**
   Round-robin: every pass visits every arm and cell once, in the same order, so consecutive
   invocations of one arm and cell are exactly a round apart, the warm-ups first.
   */
  lemma PlanIsRoundRobin(cells: seq<Cell>, arms: seq<Text>, warmup: nat, measured: nat, pass: nat, a: nat, c: nat)
    requires a < |arms| && c < |cells| && pass < warmup + measured
    ensures
      var k := Position(|arms|, |cells|, pass, a, c);
      k < |Plan(cells, arms, warmup, measured)| &&
      Plan(cells, arms, warmup, measured)[k] ==
        Invocation(cells[c].scenarioId, arms[a], cells[c].fixturePrefix, pass < warmup, k)
  {
    PositionsRise(|arms|, |cells|, pass, a, c, warmup + measured);
    PositionDecomposes(|arms|, |cells|, pass, a, c);
  }

  /** A larger measured count extends the plan. */
  lemma LargerPlanExtends(cells: seq<Cell>, arms: seq<Text>, warmup: nat, measured: nat, more: nat)
    requires measured <= more
    ensures Plan(cells, arms, warmup, measured) <= Plan(cells, arms, warmup, more)
  {
  }

  // ---- What a journal still owes --------------------------------------------------------------------

  function KeysOf(planned: seq<Invocation>): (keys: seq<Text>)
    ensures |keys| == |planned|
    ensures forall i :: 0 <= i < |keys| ==> keys[i] == SlotKey(SlotOf(planned[i]))
  {
    seq(|planned|, i requires 0 <= i < |planned| => SlotKey(SlotOf(planned[i])))
  }

  function SlotKeys(journal: seq<Slot>): (keys: seq<Text>)
    ensures |keys| == |journal|
    ensures forall i :: 0 <= i < |keys| ==> keys[i] == SlotKey(journal[i])
  {
    seq(|journal|, i requires 0 <= i < |journal| => SlotKey(journal[i]))
  }

  /** The planned invocations left when the first of each slot are taken by what is on record. */
  function Remaining(planned: seq<Invocation>, outstanding: multiset<Text>): seq<Invocation> {
    if planned == [] then []
    else
      var key := SlotKey(SlotOf(planned[0]));
      if key in outstanding then Remaining(planned[1..], outstanding - multiset{key})
      else [planned[0]] + Remaining(planned[1..], outstanding)
  }

  function CountOf(counts: map<Text, nat>, key: Text): nat {
    if key in counts then counts[key] else 0
  }

  ghost predicate Counts(counts: map<Text, nat>, keys: multiset<Text>) {
    forall key :: CountOf(counts, key) == keys[key]
  }

  method RemainingCaptureInvocations(planned: seq<Invocation>, journal: seq<Slot>)
    returns (remaining: seq<Invocation>)
    ensures remaining == Remaining(planned, multiset(SlotKeys(journal)))
  {
    var outstanding: map<Text, nat> := map[];
    var keys := SlotKeys(journal);
    for i := 0 to |journal|
      invariant Counts(outstanding, multiset(keys[..i]))
    {
      var key := SlotKey(journal[i]);
      assert keys[..i + 1] == keys[..i] + [key];
      outstanding := outstanding[key := CountOf(outstanding, key) + 1];
    }
    assert keys[..|journal|] == keys;
    remaining := [];
    ghost var owed := multiset(keys);
    for i := 0 to |planned|
      invariant Counts(outstanding, owed)
      invariant remaining + Remaining(planned[i..], owed) == Remaining(planned, multiset(keys))
    {
      var key := SlotKey(SlotOf(planned[i]));
      var count := CountOf(outstanding, key);
      assert planned[i..][1..] == planned[i + 1..];
      if count == 0 {
        remaining := remaining + [planned[i]];
      } else {
        outstanding := outstanding[key := count - 1];
        owed := owed - multiset{key};
      }
    }
  }

  function OfSlot(planned: seq<Invocation>, key: Text): seq<Invocation> {
    if planned == [] then []
    else (if SlotKey(SlotOf(planned[0])) == key then [planned[0]] else []) + OfSlot(planned[1..], key)
  }

  function Drop(s: seq<Invocation>, n: nat): seq<Invocation> {
    if n <= |s| then s[n..] else []
  }

  lemma FirstOfSlot(first: Invocation, rest: seq<Invocation>, key: Text)
    ensures OfSlot([first] + rest, key) ==
      (if SlotKey(SlotOf(first)) == key then [first] else []) + OfSlot(rest, key)
  {
    assert ([first] + rest)[1..] == rest;
  }

  lemma FirstIsTaken(planned: seq<Invocation>, owed: multiset<Text>)
    requires planned != []
    ensures Remaining(planned, multiset{SlotKey(SlotOf(planned[0]))} + owed) == Remaining(planned[1..], owed)
  {
    hide SlotKey, SlotOf;
    var key := SlotKey(SlotOf(planned[0]));
    assert multiset{key} + owed - multiset{key} == owed;
  }

  /** For any journal at all, a resume drops the first n invocations of a slot with n records. */
  lemma {:induction false} ResumeDropsTheFirst(planned: seq<Invocation>, outstanding: multiset<Text>, key: Text)
    ensures OfSlot(Remaining(planned, outstanding), key) == Drop(OfSlot(planned, key), outstanding[key])
    decreases |planned|
  {
    hide SlotKey, SlotOf;
    if planned != [] {
      var first := SlotKey(SlotOf(planned[0]));
      if first in outstanding {
        var owed := outstanding - multiset{first};
        assert outstanding == multiset{first} + owed;
        FirstIsTaken(planned, owed);
        ResumeDropsTheFirst(planned[1..], owed, key);
      } else {
        var rest := Remaining(planned[1..], outstanding);
        assert Remaining(planned, outstanding) == [planned[0]] + rest;
        ResumeDropsTheFirst(planned[1..], outstanding, key);
        FirstOfSlot(planned[0], rest, key);
      }
      FirstOfSlot(planned[0], planned[1..], key);
      assert [planned[0]] + planned[1..] == planned;
    }
  }

  /** What remains keeps the planned order: its indices still ascend. */
  lemma {:induction false} ResumeKeepsOrder(planned: seq<Invocation>, outstanding: multiset<Text>)
    requires forall i, j :: 0 <= i < j < |planned| ==> planned[i].index < planned[j].index
    ensures
      var r := Remaining(planned, outstanding);
      (forall x :: x in r ==> x in planned) && forall i, j :: 0 <= i < j < |r| ==> r[i].index < r[j].index
    decreases |planned|
  {
    if planned != [] {
      var first := SlotKey(SlotOf(planned[0]));
      ResumeKeepsOrder(planned[1..], if first in outstanding then outstanding - multiset{first} else outstanding);
      forall x | x in planned[1..] ensures x in planned && planned[0].index < x.index {
        var i :| 0 <= i < |planned[1..]| && planned[1..][i] == x;
        assert planned[i + 1] == x;
      }
    }
  }

  lemma {:induction false} NothingOwed(planned: seq<Invocation>)
    ensures Remaining(planned, multiset{}) == planned
    decreases |planned|
  {
    if planned != [] {
      NothingOwed(planned[1..]);
    }
  }

  /** A journal that is a prefix of the plan leaves exactly the rest of it. */
  lemma {:induction false} ResumeAfterPrefix(planned: seq<Invocation>, n: nat)
    requires n <= |planned|
    ensures Remaining(planned, multiset(KeysOf(planned[..n]))) == planned[n..]
    decreases n
  {
    hide SlotKey, SlotOf, Remaining;
    var keys := KeysOf(planned[..n]);
    if n == 0 {
      assert keys == [];
      NothingOwed(planned);
    } else {
      var rest := KeysOf(planned[1..][..n - 1]);
      assert keys == [SlotKey(SlotOf(planned[0]))] + rest;
      assert multiset(keys) == multiset{SlotKey(SlotOf(planned[0]))} + multiset(rest);
      FirstIsTaken(planned, multiset(rest));
      ResumeAfterPrefix(planned[1..], n - 1);
      assert planned[1..][n - 1..] == planned[n..];
    }
  }

  /** A journal longer than the plan, beginning with it, leaves nothing. */
  lemma {:induction false} NothingLeftToDo(planned: seq<Invocation>, outstanding: multiset<Text>)
    requires multiset(KeysOf(planned)) <= outstanding
    ensures Remaining(planned, outstanding) == []
    decreases |planned|
  {
    if planned != [] {
      var key := SlotKey(SlotOf(planned[0]));
      assert KeysOf(planned) == [key] + KeysOf(planned[1..]);
      assert key in multiset(KeysOf(planned));
      NothingLeftToDo(planned[1..], outstanding - multiset{key});
    }
  }
}

module CaptureSchedule {

  import opened Options

  const SPACING_MS := 70_000
  const TAIL_GUARD_SECONDS := 10
  const MINUTE_MS := 60_000

  /** Instants are milliseconds since the epoch. */
  function UtcSeconds(t: int): int {
    (t / 1000) % 60
  }

  predicate Legal(previous: Option<int>, now: int, t: int) {
    && t >= now
    && (previous.Some? ==> t >= previous.value + SPACING_MS)
    && UtcSeconds(t) < 60 - TAIL_GUARD_SECONDS
  }

  /** The least legal instant. */
  ghost predicate Earliest(previous: Option<int>, now: int, t: int) {
    Legal(previous, now, t) && forall u :: Legal(previous, now, u) ==> t <= u
  }

  method NextInvocationStart(previous: Option<int>, now: int) returns (candidate: int)
    ensures Earliest(previous, now, candidate)
  {
    candidate := if previous.None? then now else previous.value + SPACING_MS;
    if candidate < now {
      candidate := now;
    }
    ghost var earliest := candidate;
    var seconds := UtcSeconds(candidate);
    if seconds >= 60 - TAIL_GUARD_SECONDS {
      candidate := candidate - candidate % MINUTE_MS;
      candidate := candidate + MINUTE_MS;
      MinuteBoundary(earliest);
      forall t | Legal(previous, now, t) ensures candidate <= t {
        TailIsIllegal(earliest, t);
      }
    }
  }

  lemma SecondsOfMinute(t: int)
    ensures UtcSeconds(t) == (t % MINUTE_MS) / 1000
  {
  }

  lemma MinuteBoundary(t: int)
    ensures UtcSeconds(t - t % MINUTE_MS + MINUTE_MS) == 0
  {
  }

  lemma TailIsIllegal(earliest: int, t: int)
    requires UtcSeconds(earliest) >= 50 && earliest <= t && UtcSeconds(t) < 50
    ensures earliest - earliest % MINUTE_MS + MINUTE_MS <= t
  {
    hide UtcSeconds;
    SecondsOfMinute(earliest);
    SecondsOfMinute(t);
    assert t % MINUTE_MS < 50_000 <= earliest % MINUTE_MS;
    assert t - t % MINUTE_MS > earliest - earliest % MINUTE_MS;
  }

  datatype Window = Window(gte: int, lt: int)

  function CollectionWindow(start: int): Window {
    var floor := start / MINUTE_MS * MINUTE_MS;
    Window(floor, floor + MINUTE_MS)
  }

  predicate Within(w: Window, t: int) {
    w.gte <= t < w.lt
  }

  /** A legal start and the ten seconds after it lie in its own window. */
  lemma WindowHoldsTheStart(previous: Option<int>, now: int, start: int, t: int)
    requires Legal(previous, now, start) && start <= t <= start + 1000 * TAIL_GUARD_SECONDS
    ensures Within(CollectionWindow(start), t)
  {
  }

  /** Starts a spacing apart have disjoint windows. */
  lemma SpacedWindowsAreDisjoint(first: int, second: int, t: int)
    requires second >= first + SPACING_MS
    ensures !(Within(CollectionWindow(first), t) && Within(CollectionWindow(second), t))
  {
  }

  /**
   A restarted process does not know the previous start: it may begin in a minute already used,
   and does so exactly when the clock is still in that minute, before its last ten seconds.
   */
  lemma RestartSharesAWindow(previousStart: int, now: int, start: int)
    requires previousStart <= now && Earliest(None, now, start)
    ensures CollectionWindow(start) == CollectionWindow(previousStart) <==>
      now / MINUTE_MS == previousStart / MINUTE_MS && UtcSeconds(now) < 50
  {
    SecondsOfMinute(now);
    SecondsOfMinute(start);
    if UtcSeconds(now) < 50 {
      assert Legal(None, now, now);
    }
  }
}

module CaptureRun {

  import opened Options
  import opened UnicodeText
  import opened CapturePlan
  import opened CaptureSchedule

  datatype Record = Record(slot: Slot, invokedAt: int, window: Window)

  function SlotsOf(journal: seq<Record>): (slots: seq<Slot>)
    ensures |slots| == |journal|
    ensures forall i :: 0 <= i < |slots| ==> slots[i] == journal[i].slot
  {
    seq(|journal|, i requires 0 <= i < |journal| => journal[i].slot)
  }

  /** The journal accounts for exactly the first invocations of the plan. */
  ghost predicate IsPrefixOf(slots: seq<Slot>, planned: seq<Invocation>) {
    |slots| <= |planned| && forall i :: 0 <= i < |slots| ==> slots[i] == SlotOf(planned[i])
  }

  /** What one process appends, by slot. */
  function Session(planned: seq<Invocation>, slots: seq<Slot>, appends: nat): seq<Slot> {
    var remaining := Remaining(planned, multiset(SlotKeys(slots)));
    var n := if appends <= |remaining| then appends else |remaining|;
    slots + seq(n, i requires 0 <= i < n => SlotOf(remaining[i]))
  }

  /** The invocation that ran and was never appended, if the process was cut there. */
  function Lost(planned: seq<Invocation>, slots: seq<Slot>, appends: nat, cut: bool): seq<Slot> {
    var remaining := Remaining(planned, multiset(SlotKeys(slots)));
    if cut && appends < |remaining| then [SlotOf(remaining[appends])] else []
  }

  /** What the worker ran for one process: what it appends, and what it lost. */
  function Ran(planned: seq<Invocation>, slots: seq<Slot>, appends: nat, cut: bool): seq<Slot> {
    Session(planned, slots, appends)[|slots|..] + Lost(planned, slots, appends, cut)
  }

  function StartBefore(after: seq<Record>, first: nat, i: nat): Option<int>
    requires first <= i <= |after|
  {
    if i == first then None else Some(after[i - 1].invokedAt)
  }

  ghost predicate ScheduledAt(after: seq<Record>, first: nat, clock: nat -> int, i: nat)
    requires first <= i < |after|
  {
    Earliest(StartBefore(after, first, i), clock(i - first), after[i].invokedAt) &&
    after[i].window == CollectionWindow(after[i].invokedAt)
  }

  /** Each start from `first` on is the earliest legal one, and its window is its minute. */
  ghost predicate Scheduled(after: seq<Record>, first: nat, clock: nat -> int)
    requires first <= |after|
  {
    forall i :: first <= i < |after| ==> ScheduledAt(after, first, clock, i)
  }

  lemma ScheduleExtends(after: seq<Record>, first: nat, clock: nat -> int, record: Record)
    requires first <= |after| && Scheduled(after, first, clock)
    requires Earliest(StartBefore(after, first, |after|), clock(|after| - first), record.invokedAt)
    requires record.window == CollectionWindow(record.invokedAt)
    ensures Scheduled(after + [record], first, clock)
  {
    hide Earliest, CollectionWindow;
    var more := after + [record];
    forall i | first <= i < |more| ensures ScheduledAt(more, first, clock, i) {
      if i < |after| {
        assert ScheduledAt(after, first, clock, i);
      }
    }
  }

  lemma {:induction false} StartsAreSpaced(after: seq<Record>, first: nat, clock: nat -> int, i: nat, j: nat)
    requires first <= i < j < |after| && Scheduled(after, first, clock)
    ensures after[j].invokedAt >= after[i].invokedAt + SPACING_MS
    decreases j
  {
    assert ScheduledAt(after, first, clock, j);
    if i < j - 1 {
      StartsAreSpaced(after, first, clock, i, j - 1);
    }
  }

  /** Within one process the windows are pairwise disjoint, and each holds its start and ten seconds more. */
  lemma WindowsAreSound(after: seq<Record>, first: nat, clock: nat -> int, i: nat, t: int)
    requires first <= i < |after| && Scheduled(after, first, clock)
    ensures after[i].invokedAt <= t <= after[i].invokedAt + 10_000 ==> Within(after[i].window, t)
    ensures forall j :: first <= j < |after| && j != i ==>
      !(Within(after[i].window, t) && Within(after[j].window, t))
  {
    var start := after[i].invokedAt;
    assert ScheduledAt(after, first, clock, i);
    if start <= t <= start + 10_000 {
      WindowHoldsTheStart(StartBefore(after, first, i), clock(i - first), start, t);
    }
    forall j | first <= j < |after| && j != i ensures !(Within(after[i].window, t) && Within(after[j].window, t)) {
      assert ScheduledAt(after, first, clock, j);
      if i < j {
        StartsAreSpaced(after, first, clock, i, j);
        SpacedWindowsAreDisjoint(start, after[j].invokedAt, t);
      } else {
        StartsAreSpaced(after, first, clock, j, i);
        SpacedWindowsAreDisjoint(after[j].invokedAt, start, t);
      }
    }
  }

  /**
   One process: resume from the journal, then invoke and append, until the plan is done, an
   invocation is refused, or the process is killed.  `lifetime` counts its steps, each invocation
   and each append being one: it may be killed between the two.  `clock` and `accepted` are what
   the clock and the worker answer; `ran` is what the worker ran.
   */
  method RunCapture(planned: seq<Invocation>, journal: seq<Record>, lifetime: nat,
                    clock: nat -> int, accepted: nat -> bool)
    returns (after: seq<Record>, ghost ran: seq<Slot>)
    ensures journal <= after && Scheduled(after, |journal|, clock)
    ensures
      var n, slots := |after| - |journal|, SlotsOf(journal);
      var outstanding := |Remaining(planned, multiset(SlotKeys(slots)))|;
      && SlotsOf(after) == Session(planned, slots, n)
      && (forall i :: 0 <= i < n ==> accepted(i)) && 2 * n <= lifetime && n <= outstanding
      && (n < outstanding ==> lifetime == 2 * n || !accepted(n) || lifetime == 2 * n + 1)
      && ran == Ran(planned, slots, n, lifetime > 2 * n)
  {
    hide Earliest, CollectionWindow, Scheduled, SlotOf;
    var remaining := RemainingCaptureInvocations(planned, SlotsOf(journal));
    after, ran := journal, [];
    NothingScheduled(journal, clock);
    var previousStart: Option<int> := None;
    var i := 0;
    while i < |remaining| && 2 * i < lifetime
      invariant 0 <= i <= |remaining| && 2 * i <= lifetime && forall k :: 0 <= k < i ==> accepted(k)
      invariant |after| == |journal| + i && journal <= after && Scheduled(after, |journal|, clock)
      invariant SlotsOf(after) == SlotsOf(journal) + seq(i, k requires 0 <= k < i => SlotOf(remaining[k]))
      invariant previousStart == StartBefore(after, |journal|, |after|)
      invariant ran == seq(i, k requires 0 <= k < i => SlotOf(remaining[k]))
    {
      var startInstant := NextInvocationStart(previousStart, clock(i));
      ran := ran + [SlotOf(remaining[i])];
      if !accepted(i) || lifetime == 2 * i + 1 {
        break;
      }
      var record := Record(SlotOf(remaining[i]), startInstant, CollectionWindow(startInstant));
      ScheduleExtends(after, |journal|, clock, record);
      assert SlotsOf(after + [record]) == SlotsOf(after) + [record.slot];
      after := after + [record];
      previousStart := Some(startInstant);
      i := i + 1;
    }
    RanSoFar(planned, SlotsOf(journal), remaining, i, lifetime > 2 * i);
  }

  lemma RanSoFar(planned: seq<Invocation>, slots: seq<Slot>, remaining: seq<Invocation>, n: nat, cut: bool)
    requires remaining == Remaining(planned, multiset(SlotKeys(slots))) && n <= |remaining|
    ensures Ran(planned, slots, n, cut) ==
      seq(n, k requires 0 <= k < n => SlotOf(remaining[k])) +
      (if cut && n < |remaining| then [SlotOf(remaining[n])] else [])
  {
  }

  lemma NothingScheduled(journal: seq<Record>, clock: nat -> int)
    ensures Scheduled(journal, |journal|, clock)
  {
  }

  /** A resume continues a journal that is a prefix exactly where it stopped. */
  lemma SessionExtendsPrefix(planned: seq<Invocation>, slots: seq<Slot>, appends: nat)
    requires IsPrefixOf(slots, planned)
    ensures Remaining(planned, multiset(SlotKeys(slots))) == planned[|slots|..]
    ensures IsPrefixOf(Session(planned, slots, appends), planned)
    ensures |slots| + appends >= |planned| ==> |Session(planned, slots, appends)| == |planned|
  {
    var n := |slots|;
    assert SlotKeys(slots) == KeysOf(planned[..n]);
    ResumeAfterPrefix(planned, n);
  }

  /** What a cut process ran last and did not append, the next one begins with. */
  lemma LostRunIsRunAgain(planned: seq<Invocation>, slots: seq<Slot>, appends: nat)
    requires IsPrefixOf(slots, planned) && |slots| + appends < |planned|
    ensures
      var after := Session(planned, slots, appends);
      var next := Remaining(planned, multiset(SlotKeys(after)));
      next != [] && Lost(planned, slots, appends, true) == [SlotOf(next[0])]
  {
    SessionExtendsPrefix(planned, slots, appends);
    SessionExtendsPrefix(planned, Session(planned, slots, appends), 0);
  }

  /** One process of a sweep: its measured count, how often it appended, and whether it was cut before an append. */
  datatype Process = Process(measured: nat, appends: nat, cut: bool)

  /** The journal that the processes of a sweep leave. */
  function Sessions(cells: seq<Cell>, arms: seq<Text>, warmup: nat, sessions: seq<Process>): seq<Slot> {
    if sessions == [] then []
    else
      var last := sessions[|sessions| - 1];
      Session(Plan(cells, arms, warmup, last.measured),
              Sessions(cells, arms, warmup, sessions[..|sessions| - 1]), last.appends)
  }

  /** All that the worker ran for them. */
  function AllRan(cells: seq<Cell>, arms: seq<Text>, warmup: nat, sessions: seq<Process>): seq<Slot> {
    if sessions == [] then []
    else
      var last, earlier := sessions[|sessions| - 1], sessions[..|sessions| - 1];
      AllRan(cells, arms, warmup, earlier) +
      Ran(Plan(cells, arms, warmup, last.measured), Sessions(cells, arms, warmup, earlier), last.appends, last.cut)
  }

  /** All that it ran and nobody recorded. */
  function AllLost(cells: seq<Cell>, arms: seq<Text>, warmup: nat, sessions: seq<Process>): seq<Slot> {
    if sessions == [] then []
    else
      var last, earlier := sessions[|sessions| - 1], sessions[..|sessions| - 1];
      AllLost(cells, arms, warmup, earlier) +
      Lost(Plan(cells, arms, warmup, last.measured), Sessions(cells, arms, warmup, earlier), last.appends, last.cut)
  }

  lemma SessionAppends(planned: seq<Invocation>, slots: seq<Slot>, appends: nat)
    ensures slots <= Session(planned, slots, appends)
  {
  }

  lemma JoinedCounts(ran: seq<Slot>, lost: seq<Slot>, before: seq<Slot>, after: seq<Slot>, more: seq<Slot>)
    requires multiset(ran) == multiset(before) + multiset(lost) && before <= after
    ensures multiset(ran + (after[|before|..] + more)) == multiset(after) + multiset(lost + more)
  {
    assert after == before + after[|before|..];
    assert multiset(after) == multiset(before) + multiset(after[|before|..]);
  }

  /**
   What the worker ran is what the journal records and one lost invocation for each process that was cut
   between an invocation and its append; so every invocation runs once exactly when there is no such process.
   */
  lemma {:induction false} RunsAreRecordedOrLost(
      cells: seq<Cell>, arms: seq<Text>, warmup: nat, sessions: seq<Process>)
    ensures
      var recorded := Sessions(cells, arms, warmup, sessions);
      var lost := AllLost(cells, arms, warmup, sessions);
      && multiset(AllRan(cells, arms, warmup, sessions)) == multiset(recorded) + multiset(lost)
      && |lost| <= |sessions|
      && (multiset(AllRan(cells, arms, warmup, sessions)) == multiset(recorded) <==> lost == [])
    decreases |sessions|
  {
    hide Plan, Session, Lost;
    if sessions != [] {
      var last, earlier := sessions[|sessions| - 1], sessions[..|sessions| - 1];
      RunsAreRecordedOrLost(cells, arms, warmup, earlier);
      var plan, before := Plan(cells, arms, warmup, last.measured), Sessions(cells, arms, warmup, earlier);
      SessionAppends(plan, before, last.appends);
      LostIsOne(plan, before, last.appends, last.cut);
      JoinedCounts(AllRan(cells, arms, warmup, earlier), AllLost(cells, arms, warmup, earlier), before,
                   Session(plan, before, last.appends), Lost(plan, before, last.appends, last.cut));
    }
    NothingMore(multiset(Sessions(cells, arms, warmup, sessions)), AllLost(cells, arms, warmup, sessions));
  }

  lemma NothingMore(all: multiset<Slot>, lost: seq<Slot>)
    ensures all + multiset(lost) == all <==> lost == []
  {
    if all + multiset(lost) == all {
      assert |all + multiset(lost)| == |all| + |multiset(lost)|;
    }
  }

  lemma LostIsOne(planned: seq<Invocation>, slots: seq<Slot>, appends: nat, cut: bool)
    ensures |Lost(planned, slots, appends, cut)| <= if cut then 1 else 0
  {
  }

  lemma ShorterPlanIsDone(planned: seq<Invocation>, longer: seq<Invocation>, slots: seq<Slot>, appends: nat)
    requires planned <= longer && IsPrefixOf(slots, longer) && |planned| <= |slots|
    ensures Session(planned, slots, appends) == slots
  {
    var n := |planned|;
    assert SlotKeys(slots) == KeysOf(planned) + SlotKeys(slots[n..]);
    NothingLeftToDo(planned, multiset(SlotKeys(slots)));
    assert slots + [] == slots;
  }

  /**
   After any number of crashes and resumes, whatever the measured count of each, the journal is a
   prefix of the largest plan: nothing is recorded twice and nothing is skipped.
   */
  lemma {:induction false} JournalIsAlwaysAPrefix(
      cells: seq<Cell>, arms: seq<Text>, warmup: nat, sessions: seq<Process>, most: nat)
    requires forall s :: 0 <= s < |sessions| ==> sessions[s].measured <= most
    ensures IsPrefixOf(Sessions(cells, arms, warmup, sessions), Plan(cells, arms, warmup, most))
    decreases |sessions|
  {
    hide Plan, Session;
    if sessions != [] {
      var earlier := sessions[..|sessions| - 1];
      var last := sessions[|sessions| - 1];
      var slots := Sessions(cells, arms, warmup, earlier);
      var largest := Plan(cells, arms, warmup, most);
      var plan := Plan(cells, arms, warmup, last.measured);
      JournalIsAlwaysAPrefix(cells, arms, warmup, earlier, most);
      LargerPlanExtends(cells, arms, warmup, last.measured, most);
      if |plan| <= |slots| {
        ShorterPlanIsDone(plan, largest, slots, last.appends);
      } else {
        SessionExtendsPrefix(plan, slots, last.appends);
      }
    }
  }
}
