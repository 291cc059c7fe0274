/**
 The evidence gate: which captures a report is built from, and which are refused.
 */
module EvidenceGate {

  import opened Options
  import opened UnicodeText
  import opened JsonText
  import opened WireCodec
  import opened WireRecords

  datatype Status = Resolved | Missing | Ambiguous

  /** A raw event as far as the gate looks at it. */
  datatype Event = Event(
    scenario: Text, compatibilityDate: Text, scriptVersion: Text,
    status: Status, outcome: Option<Text>, cpuKnown: bool)

  const SUCCESS: Text := Codes("success")
  const BAR: CodeUnit := 0x7C

  /** The event an accepted record describes. */
  function EventOf(v: Json): Event {
    var status := Field(Field(v, Codes("evidence")), Codes("status"));
    Event(
      TextOf(Field(v, Codes("scenario_id"))), TextOf(Field(v, Codes("compatibility_date"))),
      TextOf(Field(v, Codes("script_version"))),
      if status == String(RESOLVED_STATUS) then Resolved
      else if status == String(MISSING_STATUS) then Missing else Ambiguous,
      if Field(v, Codes("outcome")).String? then Some(Field(v, Codes("outcome")).text) else None,
      Field(v, Codes("cpu_ms")).Number?)
  }

  function TextOf(v: Json): Text {
    if v.String? then v.text else []
  }

  /** An outcome exactly when the authority resolved, and a version exactly then. */
  predicate CodecValid(e: Event) {
    (e.status.Resolved? <==> e.outcome.Some?) && (e.status.Resolved? <==> e.scriptVersion != UNRESOLVED)
  }

  lemma AcceptedIsValid(v: Json)
    requires AcceptsRawEvent(v)
    ensures CodecValid(EventOf(v))
  {
  }

  function DecodeEvent(raw: Text, numbers: Numbers): (r: Decoded<Json>)
    ensures r.Ok? ==> AcceptsRawEvent(r.value)
  {
    WireCodec.Decode(raw, v => AcceptsRecord(RawEvent, v), numbers)
  }

  predicate Decodes(raw: Text, numbers: Numbers) {
    DecodeEvent(raw, numbers).Ok?
  }

  /** The event in an accepted text. */
  function EventIn(raw: Text, numbers: Numbers): Event
    requires Decodes(raw, numbers)
  {
    EventOf(DecodeEvent(raw, numbers).value)
  }

  /**
   Reads the event files of a directory: all of them in order, each with an outcome and a version
   exactly when its evidence resolved, or nothing when one of them does not decode.
   */
  method ReadEvents(files: seq<Text>, numbers: Numbers) returns (r: Option<seq<Event>>)
    ensures r.Some? <==> forall i :: 0 <= i < |files| ==> Decodes(files[i], numbers)
    ensures r.Some? ==> |r.value| == |files|
    ensures r.Some? ==> forall i :: 0 <= i < |files| ==> r.value[i] == EventIn(files[i], numbers)
    ensures r.Some? ==> forall e :: e in r.value ==> CodecValid(e)
  {
    hide AcceptsRawEvent, CodecValid, EventOf, DecodeEvent;
    var events: seq<Event> := [];
    for i := 0 to |files|
      invariant |events| == i && forall k :: 0 <= k < i ==>
        Decodes(files[k], numbers) && events[k] == EventIn(files[k], numbers)
      invariant forall e :: e in events ==> CodecValid(e)
    {
      var decoded := DecodeEvent(files[i], numbers);
      if !decoded.Ok? {
        assert !Decodes(files[i], numbers);
        return None;
      }
      AcceptedIsValid(decoded.value);
      events := events + [EventOf(decoded.value)];
    }
    return Some(events);
  }

  // ---- Counting --------------------------------------------------------------------------------------

  function Count(events: seq<Event>, p: Event -> bool): nat {
    if events == [] then 0
    else Count(events[..|events| - 1], p) + (if p(events[|events| - 1]) then 1 else 0)
  }

  predicate IsAuthoritative(e: Event) {
    e.status.Resolved?
  }

  predicate IsMissing(e: Event) {
    e.status.Missing?
  }

  predicate IsAmbiguous(e: Event) {
    e.status.Ambiguous?
  }

  predicate IsSuccess(e: Event) {
    e.status.Resolved? && e.outcome == Some(SUCCESS)
  }

  predicate IsFailure(e: Event) {
    e.status.Resolved? && e.outcome != Some(SUCCESS)
  }

  /** The one definition of a usable measurement. */
  predicate IsResolvedOk(e: Event) {
    e.outcome == Some(SUCCESS) && e.cpuKnown
  }

  predicate IsMeasured(e: Event) {
    e.status.Resolved? && IsResolvedOk(e)
  }

  lemma {:induction false} CountsPartition(events: seq<Event>)
    ensures Count(events, IsAuthoritative) + Count(events, IsMissing) +
            Count(events, IsAmbiguous) == |events|
    ensures Count(events, IsSuccess) + Count(events, IsFailure) == Count(events, IsAuthoritative)
    decreases |events|
  {
    if events != [] {
      CountsPartition(events[..|events| - 1]);
    }
  }

  lemma {:induction false} CountIsAll(events: seq<Event>, p: Event -> bool)
    ensures Count(events, p) == |events| <==> forall e :: e in events ==> p(e)
    ensures Count(events, p) <= |events|
    decreases |events|
  {
    if events != [] {
      CountIsAll(events[..|events| - 1], p);
      assert events == events[..|events| - 1] + [events[|events| - 1]];
    }
  }

  lemma {:induction false} CountIsNone(events: seq<Event>, p: Event -> bool)
    ensures Count(events, p) == 0 <==> forall e :: e in events ==> !p(e)
    decreases |events|
  {
    if events != [] {
      CountIsNone(events[..|events| - 1], p);
      assert events == events[..|events| - 1] + [events[|events| - 1]];
    }
  }

  /**
   The histogram is a plain object, so some names are present before anything is counted: adding
   one to what is found there gives no number, and `__proto__` cannot be set to it at all.
   */
  predicate IsProto(name: Text) {
    name == Codes("__proto__")
  }

  const INHERITED: set<Text> :=
    {Codes("__proto__"), Codes("constructor"), Codes("hasOwnProperty"), Codes("isPrototypeOf"),
     Codes("propertyIsEnumerable"), Codes("toLocaleString"), Codes("toString"), Codes("valueOf"),
     Codes("__defineGetter__"), Codes("__defineSetter__"), Codes("__lookupGetter__"), Codes("__lookupSetter__")}

  predicate Inherited(name: Text)
    ensures IsProto(name) ==> Inherited(name)
  {
    name in INHERITED
  }

  datatype Bucket = Tally(n: nat) | NotANumber

  /** `order` lists the outcomes of the histogram as they first appeared. */
  datatype Assessment = Assessment(
    authoritative: nat, failures: nat, missing: nat, ambiguous: nat, finiteCpu: nat,
    order: seq<Text>, histogram: map<Text, Bucket>)

  datatype Assessed = Counted(assessment: Assessment) | NullOutcome

  function TallyOf(histogram: map<Text, Bucket>, outcome: Text): nat {
    if outcome in histogram && histogram[outcome].Tally? then histogram[outcome].n else 0
  }

  function Total(histogram: map<Text, Bucket>, order: seq<Text>): nat {
    if order == [] then 0
    else Total(histogram, order[..|order| - 1]) + TallyOf(histogram, order[|order| - 1])
  }

  ghost predicate Lists(order: seq<Text>, histogram: map<Text, Bucket>) {
    && (forall i, j :: 0 <= i < j < |order| ==> order[i] != order[j])
    && (forall o :: o in order <==> o in histogram)
    && (forall o :: o in histogram ==> (Inherited(o) <==> histogram[o].NotANumber?))
  }

  /** The value found under an outcome, plus one. */
  function OneMore(histogram: map<Text, Bucket>, outcome: Text): Bucket {
    if Inherited(outcome) || (outcome in histogram && histogram[outcome].NotANumber?) then NotANumber
    else Tally(TallyOf(histogram, outcome) + 1)
  }

  lemma {:induction false} TotalGains(histogram: map<Text, Bucket>, order: seq<Text>, outcome: Text)
    requires forall i, j :: 0 <= i < j < |order| ==> order[i] != order[j]
    requires outcome in histogram ==> (Inherited(outcome) <==> histogram[outcome].NotANumber?)
    ensures Total(histogram[outcome := OneMore(histogram, outcome)], order) ==
            Total(histogram, order) + (if outcome in order && !Inherited(outcome) then 1 else 0)
    decreases |order|
  {
    hide Inherited;
    if order != [] {
      TotalGains(histogram, order[..|order| - 1], outcome);
      assert order == order[..|order| - 1] + [order[|order| - 1]];
    }
  }

  predicate WithOutcome(e: Event, outcome: Text) {
    e.status.Resolved? && e.outcome == Some(outcome)
  }

  function Reporting(outcome: Text): Event -> bool {
    e => WithOutcome(e, outcome)
  }

  predicate IsInherited(e: Event) {
    e.status.Resolved? && e.outcome.Some? && Inherited(e.outcome.value)
  }

  predicate NullResolved(e: Event) {
    e.status.Resolved? && e.outcome.None?
  }

  ghost predicate Counts(a: Assessment, events: seq<Event>) {
    && a.authoritative == Count(events, IsAuthoritative)
    && a.missing == Count(events, IsMissing)
    && a.ambiguous == Count(events, IsAmbiguous)
    && a.failures == Count(events, IsFailure)
    && a.finiteCpu == Count(events, IsMeasured)
    && (forall o :: TallyOf(a.histogram, o) == if Inherited(o) then 0 else Count(events, Reporting(o)))
    && Lists(a.order, a.histogram)
    && Total(a.histogram, a.order) + Count(events, IsInherited) == a.authoritative
  }

  /** What one event adds. */
  function AfterEvent(a: Assessment, e: Event): Assessment
    requires !NullResolved(e)
  {
    match e.status
    case Missing => a.(missing := a.missing + 1)
    case Ambiguous => a.(ambiguous := a.ambiguous + 1)
    case Resolved =>
      var o := e.outcome.value;
      a.(authoritative := a.authoritative + 1,
         failures := a.failures + (if o != SUCCESS then 1 else 0),
         finiteCpu := a.finiteCpu + (if IsResolvedOk(e) then 1 else 0),
         order := if o in a.histogram || IsProto(o) then a.order else a.order + [o],
         histogram := if IsProto(o) then a.histogram else a.histogram[o := OneMore(a.histogram, o)])
  }

  lemma CountLast(events: seq<Event>, e: Event, p: Event -> bool)
    ensures Count(events + [e], p) == Count(events, p) + (if p(e) then 1 else 0)
  {
  }

  lemma EventCounted(a: Assessment, events: seq<Event>, e: Event)
    requires Counts(a, events) && !NullResolved(e)
    ensures Counts(AfterEvent(a, e), events + [e])
  {
    hide Count, Total, Inherited, IsProto;
    CountLast(events, e, IsAuthoritative);
    CountLast(events, e, IsMissing);
    CountLast(events, e, IsAmbiguous);
    CountLast(events, e, IsFailure);
    CountLast(events, e, IsMeasured);
    CountLast(events, e, IsInherited);
    var next := AfterEvent(a, e);
    forall o ensures TallyOf(next.histogram, o) == if Inherited(o) then 0 else Count(events + [e], Reporting(o)) {
      CountLast(events, e, Reporting(o));
    }
    if e.status.Resolved? {
      OutcomeListed(a, e.outcome.value);
    }
  }

  lemma TotalOfOneMore(histogram: map<Text, Bucket>, order: seq<Text>, o: Text)
    requires o !in histogram
    ensures Total(histogram[o := OneMore(histogram, o)], order + [o]) ==
            Total(histogram[o := OneMore(histogram, o)], order) + (if Inherited(o) then 0 else 1)
  {
    hide Inherited;
    assert (order + [o])[..|order|] == order;
  }

  lemma OutcomeListed(a: Assessment, o: Text)
    requires Lists(a.order, a.histogram)
    ensures
      var order := if o in a.histogram || IsProto(o) then a.order else a.order + [o];
      var histogram := if IsProto(o) then a.histogram else a.histogram[o := OneMore(a.histogram, o)];
      Lists(order, histogram) &&
      Total(histogram, order) == Total(a.histogram, a.order) + (if Inherited(o) then 0 else 1)
  {
    hide Inherited, IsProto, Total;
    if !IsProto(o) {
      TotalGains(a.histogram, a.order, o);
      if o !in a.histogram {
        TotalOfOneMore(a.histogram, a.order, o);
      }
    }
  }

  method AssessExecution(events: seq<Event>) returns (r: Assessed)
    ensures r.NullOutcome? <==> exists e :: e in events && NullResolved(e)
    ensures r.Counted? ==> Counts(r.assessment, events)
  {
    var a := Assessment(0, 0, 0, 0, 0, [], map[]);
    hide AfterEvent, Counts;
    assert Counts(a, []) by { NothingCounted(); }
    for i := 0 to |events|
      invariant Counts(a, events[..i]) && forall e :: e in events[..i] ==> !NullResolved(e)
    {
      if NullResolved(events[i]) {
        return NullOutcome;
      }
      assert events[..i + 1] == events[..i] + [events[i]];
      EventCounted(a, events[..i], events[i]);
      a := AfterEvent(a, events[i]);
    }
    assert events[..|events|] == events;
    return Counted(a);
  }

  lemma NothingCounted()
    ensures Counts(Assessment(0, 0, 0, 0, 0, [], map[]), [])
  {
  }

  // ---- One cell ---------------------------------------------------------------------------------------

  function KeyOf(date: Text, version: Text): Text {
    date + [BAR] + version
  }

  function DeploymentKey(e: Event): Text {
    KeyOf(e.compatibilityDate, e.scriptVersion)
  }

  predicate HasResolvedDeployment(e: Event) {
    e.scriptVersion != UNRESOLVED
  }

  predicate OneDeployment(events: seq<Event>) {
    forall d, e :: d in events && e in events && HasResolvedDeployment(d) && HasResolvedDeployment(e) ==>
      DeploymentKey(d) == DeploymentKey(e)
  }

  /** What makes a cell reportable, with no reference to how it is counted. */
  predicate CellIsSound(events: seq<Event>, planned: nat, floor: nat) {
    OneDeployment(events) && |events| == planned && AllResolved(events) && planned >= floor
  }

  datatype Refusal = MixedDeployment | IncompleteEvidence | BelowSampleFloor | BadOutcome

  datatype Cell = Cell(planned: nat, collected: nat, assessment: Assessment, cpuComplete: bool)

  datatype CellResult = Summarized(cell: Cell) | CellRefused(reason: Refusal)

  predicate AllResolved(events: seq<Event>) {
    forall e :: e in events ==> e.status.Resolved?
  }

  /** What a summary says about the events of its cell. */
  ghost predicate Accounts(cell: Cell, events: seq<Event>, planned: nat) {
    && cell.planned == cell.collected == cell.assessment.authoritative == planned == |events|
    && cell.assessment.missing == 0 && cell.assessment.ambiguous == 0
    && cell.assessment.failures == planned - Count(events, IsSuccess)
    && cell.assessment.finiteCpu == Count(events, IsResolvedOk)
    && Total(cell.assessment.histogram, cell.assessment.order) == planned - Count(events, IsInherited)
    && (Total(cell.assessment.histogram, cell.assessment.order) == planned <==>
          forall e :: e in events ==> !IsInherited(e))
  }

  method BuildCellSummary(events: seq<Event>, planned: nat, floor: nat) returns (r: CellResult)
    requires forall e :: e in events ==> CodecValid(e)
    ensures r.Summarized? <==> CellIsSound(events, planned, floor)
    ensures r.Summarized? ==> Accounts(r.cell, events, planned)
    ensures r.Summarized? ==> (r.cell.cpuComplete <==> r.cell.assessment.finiteCpu >= floor)
    ensures r.CellRefused? ==>
      match r.reason
      case MixedDeployment => !OneDeployment(events)
      case IncompleteEvidence => OneDeployment(events) && (|events| != planned || !AllResolved(events))
      case BelowSampleFloor => OneDeployment(events) && |events| == planned && AllResolved(events) && planned < floor
      case BadOutcome => false
  {
    hide Count, Total, OneDeployment;
    var agrees := DeploymentsAgree(events);
    if !agrees {
      return CellRefused(MixedDeployment);
    }
    var assessed := AssessExecution(events);
    if assessed.NullOutcome? {
      return CellRefused(BadOutcome);
    }
    var a := assessed.assessment;
    CountsPartition(events);
    CountIsAll(events, IsAuthoritative);
    UsableAreResolved(events);
    if |events| != planned || a.missing != 0 || a.ambiguous != 0 {
      return CellRefused(IncompleteEvidence);
    }
    if planned < floor {
      return CellRefused(BelowSampleFloor);
    }
    CountIsNone(events, IsInherited);
    return Summarized(Cell(planned, |events|, a, a.finiteCpu >= floor));
  }

  /** An outcome that the codec lets through and every plain object already has a member for. */
  const LOST := Event(Codes("s"), Codes("2026-01-01"), Codes("v"), Resolved, Some(Codes("constructor")), false)

  /**
   However many such events a cell has, it is sound and is summarised, and its histogram counts none
   of them.
   */
  lemma InheritedOutcomeIsLost(n: nat, floor: nat, cell: Cell)
    requires floor <= n
    ensures CodecValid(LOST) && CellIsSound(seq(n, _ => LOST), n, floor)
    ensures Accounts(cell, seq(n, _ => LOST), n) ==>
      cell.assessment.authoritative == n && Total(cell.assessment.histogram, cell.assessment.order) == 0
  {
    var events := seq(n, _ => LOST);
    assert Inherited(Codes("constructor"));
    assert LOST.scriptVersion[0] != UNRESOLVED[0];
    assert forall e :: e in events ==> e == LOST;
    CountIsAll(events, IsInherited);
  }

  method DeploymentsAgree(events: seq<Event>) returns (agree: bool)
    ensures agree <==> OneDeployment(events)
  {
    var first: Option<Event> := None;
    for i := 0 to |events|
      invariant first.None? <==> forall e :: e in events[..i] ==> !HasResolvedDeployment(e)
      invariant first.Some? ==> first.value in events[..i] && HasResolvedDeployment(first.value)
      invariant first.Some? ==> forall e :: e in events[..i] && HasResolvedDeployment(e) ==>
        DeploymentKey(e) == DeploymentKey(first.value)
    {
      var e := events[i];
      assert events[..i + 1] == events[..i] + [e];
      if HasResolvedDeployment(e) {
        if first.None? {
          first := Some(e);
        } else if DeploymentKey(e) != DeploymentKey(first.value) {
          assert first.value in events && e in events;
          return false;
        }
      }
    }
    assert events[..|events|] == events;
    return true;
  }

  lemma {:induction false} UsableAreResolved(events: seq<Event>)
    requires forall e :: e in events ==> CodecValid(e)
    ensures Count(events, IsMeasured) == Count(events, IsResolvedOk)
    decreases |events|
  {
    if events != [] {
      assert events == events[..|events| - 1] + [events[|events| - 1]];
      UsableAreResolved(events[..|events| - 1]);
      assert events[|events| - 1] in events;
    }
  }

  /** Whatever the versions, deployments of these two dates have one key only if they are the same. */
  ghost predicate ToldApart(a: Text, b: Text) {
    forall v, w :: KeyOf(a, v) == KeyOf(b, w) ==> a == b && v == w
  }

  /** Deployments of two dates are told apart exactly when neither date, with a bar, begins the other. */
  lemma DeploymentKeysTellApart(a: Text, b: Text)
    ensures ToldApart(a, b) <==> !(a + [BAR] <= b) && !(b + [BAR] <= a)
  {
    if a + [BAR] <= b {
      BarredPrefixCollides(a, b);
    } else if b + [BAR] <= a {
      BarredPrefixCollides(b, a);
    } else {
      forall v, w | KeyOf(a, v) == KeyOf(b, w) ensures a == b && v == w {
        SameKeySameParts(a, v, b, w);
      }
    }
  }

  lemma BarredPrefixCollides(a: Text, b: Text)
    requires a + [BAR] <= b
    ensures exists v, w :: KeyOf(a, v) == KeyOf(b, w) && KeyOf(b, w) == KeyOf(a, v)
    ensures a != b
  {
    var v := b[|a| + 1..] + [BAR];
    assert b == a + [BAR] + b[|a| + 1..];
    assert KeyOf(a, v) == KeyOf(b, []);
  }

  lemma SameKeySameParts(a: Text, v: Text, b: Text, w: Text)
    requires KeyOf(a, v) == KeyOf(b, w) && !(a + [BAR] <= b) && !(b + [BAR] <= a)
    ensures a == b && v == w
  {
    ShorterBegins(a, v, b, w);
    ShorterBegins(b, w, a, v);
    assert a == KeyOf(a, v)[..|a|] == b;
    assert v == KeyOf(a, v)[|a| + 1..] == w;
  }

  lemma ShorterBegins(a: Text, v: Text, b: Text, w: Text)
    requires KeyOf(a, v) == KeyOf(b, w)
    ensures |a| < |b| ==> a + [BAR] <= b
  {
    if |a| < |b| {
      assert KeyOf(a, v)[..|a| + 1] == a + [BAR];
      assert KeyOf(b, w)[..|a| + 1] == b[..|a| + 1];
    }
  }

  /** Dates without a bar are always told apart. */
  lemma PlainDatesAreToldApart(a: Text, b: Text)
    requires BAR !in a && BAR !in b
    ensures ToldApart(a, b)
  {
    DeploymentKeysTellApart(a, b);
    BeginningHasBar(a, b);
    BeginningHasBar(b, a);
  }

  lemma BeginningHasBar(a: Text, b: Text)
    ensures a + [BAR] <= b ==> BAR in b
  {
    if a + [BAR] <= b {
      assert b[|a|] == BAR;
    }
  }

  /** A mixed cell that passes for one deployment: the second date goes on where the first has its bar. */
  lemma DeploymentKeysCollide(a: Text, b: Text, c: Text, d: Event, e: Event)
    requires d.compatibilityDate == a + [BAR] + b && d.scriptVersion == c
    requires e.compatibilityDate == a && e.scriptVersion == b + [BAR] + c
    ensures DeploymentKey(d) == DeploymentKey(e) && d.compatibilityDate != e.compatibilityDate
    ensures OneDeployment([d, e])
  {
  }

  // ---- The whole axis ----------------------------------------------------------------------------------

  datatype Planned = Planned(arm: Text, scenario: Text, warmup: bool)

  function PlannedCount(journal: seq<Planned>, arm: Text, scenario: Text): nat {
    if journal == [] then 0
    else
      var last := journal[|journal| - 1];
      PlannedCount(journal[..|journal| - 1], arm, scenario) +
      (if !last.warmup && last.arm == arm && last.scenario == scenario then 1 else 0)
  }

  function InScenario(events: seq<Event>, scenario: Text): seq<Event> {
    if events == [] then []
    else
      var last := events[|events| - 1];
      InScenario(events[..|events| - 1], scenario) + (if last.scenario == scenario then [last] else [])
  }

  type Collected = map<Text, seq<Event>>

  function EventsOf(collected: Collected, arm: Text, scenario: Text): seq<Event> {
    if arm in collected then InScenario(collected[arm], scenario) else []
  }

  /** A listed cell of an arm that neither planned nor collected anything is passed over. */
  predicate CellPasses(journal: seq<Planned>, collected: Collected, arm: Text, scenario: Text, floor: nat) {
    var events := EventsOf(collected, arm, scenario);
    var planned := PlannedCount(journal, arm, scenario);
    (events == [] && planned == 0) || CellIsSound(events, planned, floor)
  }

  lemma {:induction false} ScenarioEventsAreEvents(events: seq<Event>, scenario: Text)
    ensures forall e :: e in InScenario(events, scenario) ==> e in events
    decreases |events|
  {
    if events != [] {
      ScenarioEventsAreEvents(events[..|events| - 1], scenario);
      assert events == events[..|events| - 1] + [events[|events| - 1]];
    }
  }

  /** The arms of the journal's measured invocations, as they first appear. */
  function PlannedArms(journal: seq<Planned>): (arms: seq<Text>)
    ensures Distinct(arms)
  {
    if journal == [] then []
    else
      var earlier := PlannedArms(journal[..|journal| - 1]);
      var last := journal[|journal| - 1];
      if last.warmup || last.arm in earlier then earlier else earlier + [last.arm]
  }

  lemma {:induction false} UnplannedArm(journal: seq<Planned>, arm: Text, scenario: Text)
    requires arm !in PlannedArms(journal)
    ensures PlannedCount(journal, arm, scenario) == 0
    decreases |journal|
  {
    if journal != [] {
      UnplannedArm(journal[..|journal| - 1], arm, scenario);
    }
  }

  datatype Entry = Entry(arm: Text, scenario: Text, cell: Cell)

  datatype Report = Reported(entries: seq<Entry>) | Refused(arm: Text, scenario: Text, reason: Refusal)

  predicate HasWork(journal: seq<Planned>, collected: Collected, arm: Text, scenario: Text) {
    EventsOf(collected, arm, scenario) != [] || PlannedCount(journal, arm, scenario) > 0
  }

  /** How many entries the report has for a cell of an arm. */
  function EntryCount(entries: seq<Entry>, arm: Text, scenario: Text): nat {
    if entries == [] then 0
    else
      var last := entries[|entries| - 1];
      EntryCount(entries[..|entries| - 1], arm, scenario) +
      (if last.arm == arm && last.scenario == scenario then 1 else 0)
  }

  /** The entries due for a cell of an arm. */
  ghost function Due(cells: seq<Text>, journal: seq<Planned>, collected: Collected, arm: Text, scenario: Text): nat {
    if HasWork(journal, collected, arm, scenario) then multiset(cells)[scenario] else 0
  }

  /** One entry for each listing of a cell in which the arm planned or collected anything, and no other. */
  ghost predicate EntersExactly(entries: seq<Entry>, cells: seq<Text>, journal: seq<Planned>, collected: Collected) {
    forall arm, scenario :: EntryCount(entries, arm, scenario) == Due(cells, journal, collected, arm, scenario)
  }

  /** The arms that were planned and those that were collected, each once. */
  function Union(first: seq<Text>, more: seq<Text>): (arms: seq<Text>)
    ensures forall arm :: arm in arms <==> arm in first || arm in more
    ensures Distinct(first) ==> Distinct(arms)
  {
    if more == [] then first
    else
      var last := more[|more| - 1];
      var earlier := Union(first, more[..|more| - 1]);
      assert more == more[..|more| - 1] + [last];
      if last in earlier then earlier else earlier + [last]
  }

  predicate Distinct(arms: seq<Text>) {
    forall i, j :: 0 <= i < j < |arms| ==> arms[i] != arms[j]
  }

  ghost predicate EntryIsSound(entry: Entry, cells: seq<Text>, journal: seq<Planned>, collected: Collected) {
    entry.scenario in cells &&
    Accounts(entry.cell, EventsOf(collected, entry.arm, entry.scenario),
             PlannedCount(journal, entry.arm, entry.scenario))
  }

  lemma EntryAdded(entries: seq<Entry>, more: Entry, arm: Text, scenario: Text)
    ensures EntryCount(entries + [more], arm, scenario) ==
      EntryCount(entries, arm, scenario) + (if more.arm == arm && more.scenario == scenario then 1 else 0)
  {
    assert (entries + [more])[..|entries|] == entries;
  }

  /** Adds the entries of one arm to those of the arms before it. */
  method SummarizeArm(cells: seq<Text>, journal: seq<Planned>, collected: Collected, floor: nat, arm: Text,
                      before: seq<Entry>) returns (r: Report)
    requires forall a, e :: a in collected && e in collected[a] ==> CodecValid(e)
    ensures r.Reported? <==> forall s :: s in cells ==> CellPasses(journal, collected, arm, s, floor)
    ensures r.Reported? && (forall entry :: entry in before ==> EntryIsSound(entry, cells, journal, collected)) ==>
              forall entry :: entry in r.entries ==> EntryIsSound(entry, cells, journal, collected)
    ensures r.Reported? ==> forall a, s ::
              EntryCount(r.entries, a, s) ==
              EntryCount(before, a, s) + (if a == arm then Due(cells, journal, collected, a, s) else 0)
    ensures r.Refused? ==>
      r.arm == arm && r.scenario in cells && !CellPasses(journal, collected, arm, r.scenario, floor)
  {
    hide CellIsSound, Accounts, EntryCount, PlannedCount, InScenario;
    var entries := before;
    assert cells[..0] == [];
    assert forall a, s :: Due([], journal, collected, a, s) == 0;
    for k := 0 to |cells|
      invariant forall s :: s in cells[..k] ==> CellPasses(journal, collected, arm, s, floor)
      invariant forall a, s ::
        EntryCount(entries, a, s) ==
        EntryCount(before, a, s) + (if a == arm then Due(cells[..k], journal, collected, a, s) else 0)
      invariant forall entry :: entry in entries ==> entry in before || EntryIsSound(entry, cells, journal, collected)
    {
      var events := EventsOf(collected, arm, cells[k]);
      var planned := PlannedCount(journal, arm, cells[k]);
      assert cells[..k + 1] == cells[..k] + [cells[k]];
      if events == [] && planned == 0 {
        continue;
      }
      if arm in collected {
        ScenarioEventsAreEvents(collected[arm], cells[k]);
      }
      var result := BuildCellSummary(events, planned, floor);
      SoundHasLength(events, planned, floor);
      if result.CellRefused? {
        assert cells[k] in cells && !CellPasses(journal, collected, arm, cells[k], floor);
        return Refused(arm, cells[k], result.reason);
      }
      ghost var earlier := entries;
      entries := entries + [Entry(arm, cells[k], result.cell)];
      forall a, s
        ensures EntryCount(entries, a, s) == EntryCount(earlier, a, s) + (if a == arm && s == cells[k] then 1 else 0)
      {
        EntryAdded(earlier, Entry(arm, cells[k], result.cell), a, s);
      }
    }
    assert cells[..|cells|] == cells;
    return Reported(entries);
  }

  /** `order` lists the collected arms, in the order in which they were collected. */
  method BuildAxisReport(cells: seq<Text>, journal: seq<Planned>, collected: Collected, order: seq<Text>, floor: nat)
    returns (r: Report)
    requires forall arm :: arm in order <==> arm in collected
    requires forall arm, e :: arm in collected && e in collected[arm] ==> CodecValid(e)
    ensures r.Reported? <==> forall arm, scenario :: scenario in cells ==>
              CellPasses(journal, collected, arm, scenario, floor)
    ensures r.Reported? ==> forall entry :: entry in r.entries ==> EntryIsSound(entry, cells, journal, collected)
    ensures r.Reported? ==> EntersExactly(r.entries, cells, journal, collected)
    ensures r.Refused? ==> r.scenario in cells && !CellPasses(journal, collected, r.arm, r.scenario, floor)
  {
    hide CellIsSound, PlannedArms, Accounts, EntryCount, PlannedCount, InScenario, Union, CellPasses, EntryIsSound;
    var arms := Union(PlannedArms(journal), order);
    var entries: seq<Entry> := [];
    NothingEntered();
    for i := 0 to |arms|
      invariant forall a, s :: a in arms[..i] && s in cells ==> CellPasses(journal, collected, a, s, floor)
      invariant forall a, s ::
        EntryCount(entries, a, s) == if a in arms[..i] then Due(cells, journal, collected, a, s) else 0
      invariant forall entry :: entry in entries ==> EntryIsSound(entry, cells, journal, collected)
    {
      var more := SummarizeArm(cells, journal, collected, floor, arms[i], entries);
      if more.Refused? {
        return more;
      }
      entries := more.entries;
      assert arms[i] !in arms[..i];
      assert arms[..i + 1] == arms[..i] + [arms[i]];
    }
    assert arms[..|arms|] == arms;
    forall arm, scenario
      ensures scenario in cells ==> CellPasses(journal, collected, arm, scenario, floor)
      ensures HasWork(journal, collected, arm, scenario) ==> arm in arms
    {
      if arm !in arms {
        UnknownArm(journal, collected, arm, scenario, floor);
      }
    }
    return Reported(entries);
  }

  lemma UnknownArm(journal: seq<Planned>, collected: Collected, arm: Text, scenario: Text, floor: nat)
    requires arm !in PlannedArms(journal) && arm !in collected
    ensures CellPasses(journal, collected, arm, scenario, floor) && !HasWork(journal, collected, arm, scenario)
  {
    UnplannedArm(journal, arm, scenario);
  }

  lemma NothingEntered()
    ensures forall a, s :: EntryCount([], a, s) == 0
  {
  }

  lemma SoundHasLength(events: seq<Event>, planned: nat, floor: nat)
    ensures CellIsSound(events, planned, floor) ==> |events| == planned
  {
  }

  /** An arm that was planned for a listed cell and never collected cannot pass. */
  lemma UncollectedArmIsRefused(journal: seq<Planned>, collected: Collected, arm: Text, scenario: Text, floor: nat)
    requires arm !in collected && PlannedCount(journal, arm, scenario) > 0
    ensures !CellPasses(journal, collected, arm, scenario, floor)
  {
  }

  /**
   A report accounts for all the work that was planned or collected exactly when every scenario that
   has any is listed: the gate does not look at the others.
   */
  lemma OnlyListedWorkIsGated(entries: seq<Entry>, cells: seq<Text>, journal: seq<Planned>, collected: Collected)
    requires EntersExactly(entries, cells, journal, collected)
    ensures
      (forall arm, scenario :: HasWork(journal, collected, arm, scenario) ==>
         EntryCount(entries, arm, scenario) > 0) <==>
      (forall arm, scenario :: HasWork(journal, collected, arm, scenario) ==> scenario in cells)
  {
    hide HasWork, EntryCount;
    forall arm, scenario | HasWork(journal, collected, arm, scenario)
      ensures EntryCount(entries, arm, scenario) > 0 <==> scenario in cells
    {
    }
  }

  /**
   Invocations of a scenario that is not listed, planned and never collected: the capture passes, with
   no entry for them, whatever the floor.
   */
  lemma UnlistedWorkIsLost(cells: seq<Text>, arm: Text, scenario: Text, floor: nat)
    requires scenario !in cells
    ensures
      var journal := [Planned(arm, scenario, false)];
      && (forall a, s :: s in cells ==> CellPasses(journal, map[], a, s, floor))
      && PlannedCount(journal, arm, scenario) == 1 && EventsOf(map[], arm, scenario) == []
      && EntersExactly([], cells, journal, map[])
  {
    var journal := [Planned(arm, scenario, false)];
    assert journal[..0] == [];
    forall a, s ensures PlannedCount(journal, a, s) == if a == arm && s == scenario then 1 else 0 {
      assert PlannedCount([], a, s) == 0;
    }
    assert forall a, s :: EntryCount([], a, s) == 0;
  }
}
