/**
 The strict wire codecs: a text is decoded only if it is the canonical spelling of its own value.

 `WireCodec` is the scheme every codec follows, for any test of values; `WireRecords` are the
 tests of the run request, the fixture descriptor, the sweep report, the journal's invocation
 record and the raw event.
 */
module WireCodec {

  import opened Options
  import opened UnicodeText
  import opened JsonText
  import opened JsHeap
  import CanonicalModel

  /** The numeral printed for the number that a numeral denotes, or None when it is not finite. */
  type Numbers = Text -> Option<Text>

  ghost predicate PrintsCanonically(numbers: Numbers) {
    forall t :: IsNumeral(t) && numbers(t).Some? ==>
      IsNumeral(numbers(t).value) && numbers(numbers(t).value) == numbers(t)
  }

  function Keys(members: seq<Member>): (keys: seq<Text>)
    ensures |keys| == |members| && forall i :: 0 <= i < |keys| ==> keys[i] == members[i].key
  {
    seq(|members|, i requires 0 <= i < |members| => members[i].key)
  }

  function Insert(m: Member, sorted: seq<Member>): (r: seq<Member>)
    ensures |r| == |sorted| + 1
    ensures forall x :: x in r <==> x == m || x in sorted
  {
    if sorted == [] then [m]
    else
      assert sorted == [sorted[0]] + sorted[1..];
      if Less(m.key, sorted[0].key) then [m] + sorted else [sorted[0]] + Insert(m, sorted[1..])
  }

  predicate HasKey(members: seq<Member>, key: Text) {
    exists i :: 0 <= i < |members| && members[i].key == key
  }

  /**
   The value a parsed text stands for: numbers as they print, members in key order, of several
   members of one key the last.  None when a string is outside the I-JSON domain.
   */
  function Normal(v: Json, numbers: Numbers): Option<Json>
    decreases v
  {
    match v
    case Number(numeral) => (match numbers(numeral) case Some(t) => Some(Number(t)) case None => None)
    case String(text) => if Scans(text) then Some(v) else None
    case Array(items) => (match NormalItems(items, numbers) case Some(r) => Some(Array(r)) case None => None)
    case Object(members) => (match NormalMembers(members, numbers) case Some(r) => Some(Object(r)) case None => None)
    case _ => Some(v)
  }

  function NormalItems(items: seq<Json>, numbers: Numbers): Option<seq<Json>>
    decreases items
  {
    if items == [] then Some([])
    else
      match (Normal(items[0], numbers), NormalItems(items[1..], numbers))
      case (Some(first), Some(rest)) => Some([first] + rest)
      case _ => None
  }

  function NormalMembers(members: seq<Member>, numbers: Numbers): Option<seq<Member>>
    decreases members
  {
    if members == [] then Some([])
    else
      match NormalMembers(members[1..], numbers)
      case None => None
      case Some(rest) =>
        if HasKey(rest, members[0].key) then Some(rest)
        else if !Scans(members[0].key) then None
        else
          match Normal(members[0].value, numbers)
          case None => None
          case Some(value) => Some(Insert(Member(members[0].key, value), rest))
  }

  predicate InKeyOrder(members: seq<Member>) {
    forall i, j :: 0 <= i < j < |members| ==> Less(members[i].key, members[j].key)
  }

  /** A value as it comes out of a decoder. */
  predicate IsNormal(v: Json, numbers: Numbers) {
    match v
    case Number(numeral) => IsNumeral(numeral) && numbers(numeral) == Some(numeral)
    case String(text) => Scans(text)
    case Array(items) => forall i :: 0 <= i < |items| ==> IsNormal(items[i], numbers)
    case Object(members) =>
      InKeyOrder(members) &&
      forall i :: 0 <= i < |members| ==> Scans(members[i].key) && IsNormal(members[i].value, numbers)
    case _ => true
  }

  // ---- Normal values ------------------------------------------------------------------------------

  lemma {:induction false} InsertKeepsKeyOrder(m: Member, sorted: seq<Member>)
    requires InKeyOrder(sorted) && !HasKey(sorted, m.key)
    ensures InKeyOrder(Insert(m, sorted))
    decreases |sorted|
  {
    if sorted != [] {
      LessIsTotal(m.key, sorted[0].key);
      var r := Insert(m, sorted);
      if Less(m.key, sorted[0].key) {
        forall j | 0 < j < |r| ensures Less(r[0].key, r[j].key) {
          if j > 1 {
            LessIsTransitive(m.key, sorted[0].key, sorted[j - 1].key);
          }
        }
      } else {
        InsertKeepsKeyOrder(m, sorted[1..]);
        forall j | 0 < j < |r| ensures Less(r[0].key, r[j].key) {
          assert r[j] in Insert(m, sorted[1..]);
        }
      }
    }
  }

  lemma {:induction false} NormalIsNormal(v: Json, numbers: Numbers)
    requires WellFormed(v) && PrintsCanonically(numbers) && Normal(v, numbers).Some?
    ensures IsNormal(Normal(v, numbers).value, numbers)
    decreases v
  {
    hide Scans, IsNumeral, Insert;
    match v
    case Array(items) => ItemsAreNormal(items, numbers);
    case Object(members) => MembersAreNormal(members, numbers);
    case _ =>
  }

  lemma {:induction false} ItemsAreNormal(items: seq<Json>, numbers: Numbers)
    requires PrintsCanonically(numbers) && NormalItems(items, numbers).Some?
    requires forall i :: 0 <= i < |items| ==> WellFormed(items[i])
    ensures var r := NormalItems(items, numbers).value;
      forall i :: 0 <= i < |r| ==> IsNormal(r[i], numbers)
    decreases items
  {
    hide WellFormed, IsNormal, Normal;
    if items != [] {
      NormalIsNormal(items[0], numbers);
      ItemsAreNormal(items[1..], numbers);
    }
  }

  predicate NormalMember(m: Member, numbers: Numbers) {
    Scans(m.key) && IsNormal(m.value, numbers)
  }

  lemma {:induction false} MembersAreNormal(members: seq<Member>, numbers: Numbers)
    requires PrintsCanonically(numbers) && NormalMembers(members, numbers).Some?
    requires forall i :: 0 <= i < |members| ==> WellFormed(members[i].value)
    ensures var r := NormalMembers(members, numbers).value;
      InKeyOrder(r) && forall i :: 0 <= i < |r| ==> NormalMember(r[i], numbers)
    decreases members
  {
    hide WellFormed, IsNormal, Normal, Scans, Insert;
    if members != [] {
      var rest := NormalMembers(members[1..], numbers).value;
      MembersAreNormal(members[1..], numbers);
      if !HasKey(rest, members[0].key) {
        NormalIsNormal(members[0].value, numbers);
        var m := Member(members[0].key, Normal(members[0].value, numbers).value);
        InsertKeepsKeyOrder(m, rest);
        var r := Insert(m, rest);
        forall i | 0 <= i < |r| ensures NormalMember(r[i], numbers) {
          assert r[i] in r;
        }
      }
    }
  }

  /** A normal value stands for itself. */
  lemma {:induction false} NormalFixes(v: Json, numbers: Numbers)
    requires IsNormal(v, numbers)
    ensures Normal(v, numbers) == Some(v) && WellFormed(v)
    decreases v
  {
    match v
    case Array(items) =>
      forall i | 0 <= i < |items| ensures Normal(items[i], numbers) == Some(items[i]) && WellFormed(items[i]) {
        NormalFixes(items[i], numbers);
      }
      ItemsFixed(items, numbers);
    case Object(members) =>
      forall i | 0 <= i < |members|
        ensures Normal(members[i].value, numbers) == Some(members[i].value) && WellFormed(members[i].value)
      {
        NormalFixes(members[i].value, numbers);
      }
      MembersFixed(members, numbers);
    case _ =>
  }

  lemma {:induction false} ItemsFixed(items: seq<Json>, numbers: Numbers)
    requires forall i :: 0 <= i < |items| ==> Normal(items[i], numbers) == Some(items[i])
    ensures NormalItems(items, numbers) == Some(items)
    decreases |items|
  {
    hide Normal;
    if items != [] {
      ItemsFixed(items[1..], numbers);
      assert items == [items[0]] + items[1..];
    }
  }

  lemma {:induction false} MembersFixed(members: seq<Member>, numbers: Numbers)
    requires InKeyOrder(members)
    requires forall i :: 0 <= i < |members| ==>
      Scans(members[i].key) && Normal(members[i].value, numbers) == Some(members[i].value)
    ensures NormalMembers(members, numbers) == Some(members)
    decreases |members|
  {
    hide Normal, Scans;
    if members != [] {
      var rest := members[1..];
      MembersFixed(rest, numbers);
      forall i | 0 <= i < |rest| ensures rest[i].key != members[0].key {
        assert Less(members[0].key, members[i + 1].key);
        LessIsTotal(members[0].key, rest[i].key);
      }
      assert rest != [] ==> Less(members[0].key, members[1].key);
      assert Insert(members[0], rest) == [members[0]] + rest;
      assert members == [members[0]] + rest;
    }
  }

  // ---- What is parsed is well formed ---------------------------------------------------------------

  /** The numeral a text starts with is a numeral. */
  lemma NumeralPrefixIsNumeral(s: Text)
    requires NumeralLength(s) > 0
    ensures IsNumeral(s[..NumeralLength(s)])
  {
    hide NumeralLength;
    NumeralCut(s, NumeralLength(s));
  }

  lemma {:induction false} ParsedValueIsWellFormed(s: Text)
    requires ParseValue(s).Some?
    ensures WellFormed(ParseValue(s).value.0)
    decreases |s|, 0
  {
    hide ParseItems, ParseMembers, ParseString, NumeralLength, SkipSpace;
    if s[0] == OPEN_BRACE {
      var inner := SkipSpace(s[1..]);
      if !StartsWith(inner, CLOSE_BRACE) {
        ParsedMembersAreWellFormed(inner);
      }
    } else if s[0] == OPEN_BRACKET {
      var inner := SkipSpace(s[1..]);
      if !StartsWith(inner, CLOSE_BRACKET) {
        ParsedItemsAreWellFormed(inner);
      }
    } else if s[0] != QUOTE && NumeralLength(s) > 0 {
      NumeralPrefixIsNumeral(s);
    }
  }

  lemma {:induction false} ParsedItemsAreWellFormed(s: Text)
    requires ParseItems(s).Some?
    ensures forall i :: 0 <= i < |ParseItems(s).value.0| ==> WellFormed(ParseItems(s).value.0[i])
    decreases |s|, 1
  {
    hide ParseValue, SkipSpace, WellFormed;
    ParsedValueIsWellFormed(s);
    var next := SkipSpace(ParseValue(s).value.1);
    if !StartsWith(next, CLOSE_BRACKET) {
      ParsedItemsAreWellFormed(SkipSpace(next[1..]));
    }
  }

  lemma {:induction false} ParsedMembersAreWellFormed(s: Text)
    requires ParseMembers(s).Some?
    ensures forall i :: 0 <= i < |ParseMembers(s).value.0| ==> WellFormed(ParseMembers(s).value.0[i].value)
    decreases |s|, 2
  {
    hide ParseMember, SkipSpace, WellFormed;
    ParsedMemberIsWellFormed(s);
    var next := SkipSpace(ParseMember(s).value.1);
    if !StartsWith(next, CLOSE_BRACE) {
      ParsedMembersAreWellFormed(SkipSpace(next[1..]));
    }
  }

  lemma {:induction false} ParsedMemberIsWellFormed(s: Text)
    requires ParseMember(s).Some?
    ensures WellFormed(ParseMember(s).value.0.value)
    decreases |s|, 1
  {
    hide ParseValue, ParseString, SkipSpace, WellFormed;
    var colon := SkipSpace(ParseString(s[1..]).value.1);
    ParsedValueIsWellFormed(SkipSpace(colon[1..]));
  }

  // ---- The codec --------------------------------------------------------------------------------------

  /** Nested at most so deep, and without a key that the serializer forbids. */
  predicate Fits(v: Json, budget: nat) {
    match v
    case Array(items) => items == [] || (budget > 0 && forall i :: 0 <= i < |items| ==> Fits(items[i], budget - 1))
    case Object(members) =>
      members == [] ||
      (budget > 0 && forall i :: 0 <= i < |members| ==>
         members[i].key != CanonicalModel.PROTO_KEY && Fits(members[i].value, budget - 1))
    case _ => true
  }

  /** What the canonical serializer does not refuse of a normal value. */
  predicate Serializable(v: Json) {
    Fits(v, CanonicalModel.MAX_DEPTH)
  }

  datatype Decoded<+T> = Ok(value: T) | NotJson | Invalid | NotRepresentable | NotCanonical

  type Acceptance = Json -> bool

  /** What the encoder sends: the canonical text of a value that passes the test, if it has one. */
  function Encode(v: Json, accepts: Acceptance, numbers: Numbers): Decoded<Text> {
    match Normal(v, numbers)
    case None => Invalid
    case Some(value) =>
      if !accepts(value) then Invalid
      else if !Serializable(value) then NotRepresentable
      else Ok(Print(value))
  }

  /** Parse, test, print again, and compare with what was received. */
  function Decode(raw: Text, accepts: Acceptance, numbers: Numbers): Decoded<Json> {
    match Parse(raw)
    case None => NotJson
    case Some(parsed) =>
      match Normal(parsed, numbers)
      case None => Invalid
      case Some(value) =>
        if !accepts(value) then Invalid
        else if !Serializable(value) then NotRepresentable
        else if Print(value) != raw then NotCanonical
        else Ok(value)
  }

  lemma ParsedIsWellFormed(raw: Text)
    requires Parse(raw).Some?
    ensures WellFormed(Parse(raw).value)
  {
    hide ParseValue, WellFormed, SkipSpace;
    ParsedValueIsWellFormed(SkipSpace(raw));
  }

  /**
   A text decodes to a value exactly when the value is normal, passes the test and can be serialized,
   and the text is its canonical one: no other spelling, order, duplicate or white space is accepted.
   */
  lemma DecodesExactly(raw: Text, v: Json, accepts: Acceptance, numbers: Numbers)
    requires PrintsCanonically(numbers)
    ensures Decode(raw, accepts, numbers) == Ok(v) <==>
            IsNormal(v, numbers) && accepts(v) && Serializable(v) && raw == Print(v)
  {
    hide Parse, Print, Normal, IsNormal, Serializable, PrintsCanonically;
    if Decode(raw, accepts, numbers) == Ok(v) {
      ParsedIsWellFormed(raw);
      NormalIsNormal(Parse(raw).value, numbers);
    }
    if IsNormal(v, numbers) && raw == Print(v) {
      NormalFixes(v, numbers);
      ParseUndoesPrint(v);
    }
  }

  /** Decoding undoes encoding, up to the order in which the members were given. */
  lemma DecodeUndoesEncode(v: Json, accepts: Acceptance, numbers: Numbers)
    requires PrintsCanonically(numbers) && WellFormed(v) && Encode(v, accepts, numbers).Ok?
    ensures Decode(Encode(v, accepts, numbers).value, accepts, numbers) == Ok(Normal(v, numbers).value)
  {
    hide Parse, Print, Normal, IsNormal, Serializable, PrintsCanonically, Decode;
    NormalIsNormal(v, numbers);
    DecodesExactly(Encode(v, accepts, numbers).value, Normal(v, numbers).value, accepts, numbers);
  }

  /** Encoding undoes decoding, so every record has exactly one accepted text. */
  lemma OneTextPerRecord(raw: Text, other: Text, accepts: Acceptance, numbers: Numbers)
    requires PrintsCanonically(numbers) && Decode(raw, accepts, numbers).Ok?
    ensures Encode(Decode(raw, accepts, numbers).value, accepts, numbers) == Ok(raw)
    ensures Decode(other, accepts, numbers) == Decode(raw, accepts, numbers) ==> other == raw
  {
    hide Parse, Print, Normal, IsNormal, Serializable, PrintsCanonically, Decode;
    var v := Decode(raw, accepts, numbers).value;
    DecodesExactly(raw, v, accepts, numbers);
    DecodesExactly(other, v, accepts, numbers);
    NormalFixes(v, numbers);
  }

  /** A JSON text whose members are out of order or repeated is refused, whatever its value. */
  lemma OtherOrdersAreRefused(raw: Text, accepts: Acceptance, numbers: Numbers)
    requires PrintsCanonically(numbers) && Parse(raw).Some? && !IsNormal(Parse(raw).value, numbers)
    ensures !Decode(raw, accepts, numbers).Ok?
  {
    hide Print, Normal, IsNormal, Serializable, PrintsCanonically, ParseValue;
    if Decode(raw, accepts, numbers).Ok? {
      var v := Decode(raw, accepts, numbers).value;
      DecodesExactly(raw, v, accepts, numbers);
      NormalFixes(v, numbers);
      ParseUndoesPrint(v);
    }
  }
}

module WireRecords {

  import opened UnicodeText
  import opened JsonText
  import opened JsHeap
  import opened WireCodec
  import CanonicalModel

  const CONTRACT_ID: Text := Codes("baerly.workload-ceiling/chunked-snapshot/v1")
  const EVIDENCE_CONTRACT_ID: Text := Codes("baerly.workload-ceiling/evidence/v2")
  const UNRESOLVED: Text := Codes("unresolved")
  const UNKNOWN: Text := Codes("unknown")
  const RESOLVED_STATUS: Text := Codes("resolved")
  const MISSING_STATUS: Text := Codes("missing")
  const AMBIGUOUS_STATUS: Text := Codes("ambiguous")
  const OBSERVABILITY: Text := Codes("workers-observability")
  const ADAPTIVE_SOURCE: Text := Codes("workers-invocations-adaptive")
  const NO_SOURCE: Text := Codes("none")

  const IMPLEMENTATIONS: seq<Text> :=
    [Codes("monolithic-control"), Codes("monolithic-control-unhashed"), Codes("chunked-candidate")]

  const THERMAL_CLASSES: seq<Text> := [Codes("warm"), Codes("cold"), Codes("unknown")]

  const MAX_SAFE_INTEGER: nat := 9007199254740991

  // ---- Exact field sets ---------------------------------------------------------------------------

  datatype FieldCheck = Exact | UnknownField(key: Text) | MissingField(field: Text)

  predicate FirstOutside(names: seq<Text>, others: seq<Text>, i: int) {
    0 <= i < |names| && names[i] !in others && forall k :: 0 <= k < i ==> names[k] in others
  }

  /** The first key outside the fields is reported, else the first field without a key. */
  method AssertExactFields(keys: seq<Text>, fields: seq<Text>) returns (r: FieldCheck)
    ensures r.Exact? <==> forall t :: t in keys <==> t in fields
    ensures r.UnknownField? ==> exists i :: FirstOutside(keys, fields, i) && keys[i] == r.key
    ensures r.MissingField? ==> forall k :: k in keys ==> k in fields
    ensures r.MissingField? ==> exists i :: FirstOutside(fields, keys, i) && fields[i] == r.field
  {
    var seen: set<Text> := {};
    for i := 0 to |keys|
      invariant forall k :: 0 <= k < i ==> keys[k] in fields
      invariant forall t :: t in seen <==> t in keys[..i]
    {
      if keys[i] !in fields {
        assert FirstOutside(keys, fields, i);
        return UnknownField(keys[i]);
      }
      assert keys[..i + 1] == keys[..i] + [keys[i]];
      seen := seen + {keys[i]};
    }
    assert keys[..|keys|] == keys;
    for i := 0 to |fields|
      invariant forall k :: 0 <= k < i ==> fields[k] in keys
    {
      if fields[i] !in seen {
        assert FirstOutside(fields, keys, i);
        return MissingField(fields[i]);
      }
    }
    return Exact;
  }

  predicate HasExactly(v: Json, fields: seq<Text>) {
    v.Object? && (forall key :: key in Keys(v.members) ==> key in fields) &&
    (forall field :: field in fields ==> field in Keys(v.members))
  }

  /** The value of a field, Null when there is none. */
  function Field(v: Json, key: Text): Json {
    if v.Object? then Get(v.members, key) else Null
  }

  function Get(members: seq<Member>, key: Text): Json {
    if members == [] then Null
    else if members[0].key == key then members[0].value
    else Get(members[1..], key)
  }

  // ---- Scalars ------------------------------------------------------------------------------------

  predicate NonEmptyString(v: Json) {
    v.String? && !IsBlank(v.text)
  }

  predicate OneOf(v: Json, choices: seq<Text>) {
    v.String? && v.text in choices
  }

  /** A canonical numeral of a number that is not below zero. */
  predicate NonNegativeNumber(v: Json) {
    v.Number? && v.numeral != [] && v.numeral[0] != 0x2D
  }

  /** Integers below the safe bound print as plain digits. */
  predicate IntegerWithin(v: Json, low: nat, high: nat) {
    v.Number? && (forall k :: 0 <= k < |v.numeral| ==> IsDigit(v.numeral[k])) && v.numeral != [] &&
    low <= DecimalValue(v.numeral) <= high
  }

  predicate DigitsAt(s: Text, from: nat, count: nat) {
    from + count <= |s| && forall k :: from <= k < from + count ==> IsDigit(s[k])
  }

  predicate UnitAt(s: Text, at: nat, u: CodeUnit) {
    at < |s| && s[at] == u
  }

  /** YYYY-MM-DDTHH:mm:ss, an optional fraction, and Z. */
  predicate IsUtcTimestamp(s: Text) {
    && DigitsAt(s, 0, 4) && UnitAt(s, 4, 0x2D) && DigitsAt(s, 5, 2) && UnitAt(s, 7, 0x2D)
    && DigitsAt(s, 8, 2) && UnitAt(s, 10, 0x54) && DigitsAt(s, 11, 2) && UnitAt(s, 13, 0x3A)
    && DigitsAt(s, 14, 2) && UnitAt(s, 16, 0x3A) && DigitsAt(s, 17, 2)
    && (s[19..] == [0x5A] ||
        (|s| >= 22 && s[19] == 0x2E && s[|s| - 1] == 0x5A && DigitsAt(s, 20, |s| - 21)))
  }

  predicate Timestamp(v: Json) {
    NonEmptyString(v) && IsUtcTimestamp(v.text)
  }

  // ---- The run request and the invocation record -----------------------------------------------------

  const RUN_REQUEST_FIELDS: seq<Text> :=
    [Codes("contract_id"), Codes("run_id"), Codes("scenario_id"), Codes("implementation"), Codes("fixture_prefix")]

  predicate AcceptsRunRequest(v: Json) {
    && HasExactly(v, RUN_REQUEST_FIELDS)
    && Field(v, Codes("contract_id")) == String(CONTRACT_ID)
    && NonEmptyString(Field(v, Codes("run_id"))) && NonEmptyString(Field(v, Codes("scenario_id")))
    && OneOf(Field(v, Codes("implementation")), IMPLEMENTATIONS)
    && NonEmptyString(Field(v, Codes("fixture_prefix"))) && CleanPrefix(Field(v, Codes("fixture_prefix")).text)
  }

  const INVOCATION_RECORD_FIELDS: seq<Text> :=
    [Codes("contract_id"), Codes("sweep_id"), Codes("run_id"), Codes("scenario_id"), Codes("implementation"),
     Codes("fixture_prefix"), Codes("warmup"), Codes("invoked_at"), Codes("window_gte"), Codes("window_lt"),
     Codes("http_status"), Codes("row_count"), Codes("thermal_class")]

  predicate AcceptsInvocationRecord(v: Json) {
    && HasExactly(v, INVOCATION_RECORD_FIELDS)
    && Field(v, Codes("contract_id")) == String(CONTRACT_ID)
    && NonEmptyString(Field(v, Codes("sweep_id"))) && NonEmptyString(Field(v, Codes("run_id")))
    && NonEmptyString(Field(v, Codes("scenario_id")))
    && OneOf(Field(v, Codes("implementation")), IMPLEMENTATIONS)
    && NonEmptyString(Field(v, Codes("fixture_prefix"))) && Field(v, Codes("warmup")).Boolean?
    && Timestamp(Field(v, Codes("invoked_at"))) && Timestamp(Field(v, Codes("window_gte")))
    && Timestamp(Field(v, Codes("window_lt")))
    && IntegerWithin(Field(v, Codes("http_status")), 100, 599)
    && IntegerWithin(Field(v, Codes("row_count")), 0, MAX_SAFE_INTEGER)
    && OneOf(Field(v, Codes("thermal_class")), THERMAL_CLASSES)
  }

  // ---- The raw event ---------------------------------------------------------------------------------

  const EVIDENCE_BLOCK_FIELDS: seq<Text> :=
    [Codes("status"), Codes("detail"), Codes("authority"), Codes("authoritative_outcome"),
     Codes("authoritative_cpu_ms"), Codes("authoritative_response_status"), Codes("cpu_source"),
     Codes("cpu_outcome_verbatim")]

  predicate AcceptsEvidence(v: Json) {
    var status := Field(v, Codes("status"));
    var detail := Field(v, Codes("detail"));
    var outcome := Field(v, Codes("authoritative_outcome"));
    var cpu := Field(v, Codes("authoritative_cpu_ms"));
    var response := Field(v, Codes("authoritative_response_status"));
    var source := Field(v, Codes("cpu_source"));
    var verbatim := Field(v, Codes("cpu_outcome_verbatim"));
    && HasExactly(v, EVIDENCE_BLOCK_FIELDS)
    && OneOf(status, [RESOLVED_STATUS, MISSING_STATUS, AMBIGUOUS_STATUS])
    && (detail.Null? || detail.String?)
    && (status == String(RESOLVED_STATUS) ==> detail.Null?)
    && (status != String(RESOLVED_STATUS) ==> NonEmptyString(detail))
    && Field(v, Codes("authority")) == String(OBSERVABILITY)
    && (outcome.Null? || NonEmptyString(outcome))
    && (status == String(RESOLVED_STATUS) ==> !outcome.Null?)
    && (cpu.Null? || NonNegativeNumber(cpu))
    && (response.Null? || IntegerWithin(response, 100, 599))
    && OneOf(source, [ADAPTIVE_SOURCE, NO_SOURCE])
    && (verbatim.Null? || NonEmptyString(verbatim))
    && (source == String(ADAPTIVE_SOURCE) ==> !verbatim.Null?)
  }

  const RAW_EVENT_FIELDS: seq<Text> :=
    [Codes("evidence_contract_id"), Codes("run_id"), Codes("scenario_id"), Codes("script_version"),
     Codes("compatibility_date"), Codes("runtime_period"), Codes("colo"), Codes("thermal_class"),
     Codes("outcome"), Codes("cpu_ms"), Codes("observed_at"), Codes("evidence")]

  predicate AcceptsRawEvent(v: Json) {
    var evidence := Field(v, Codes("evidence"));
    var resolved := Field(evidence, Codes("status")) == String(RESOLVED_STATUS);
    var outcome := Field(v, Codes("outcome"));
    var cpu := Field(v, Codes("cpu_ms"));
    var version := Field(v, Codes("script_version"));
    var colo := Field(v, Codes("colo"));
    && HasExactly(v, RAW_EVENT_FIELDS)
    && Field(v, Codes("evidence_contract_id")) == String(EVIDENCE_CONTRACT_ID)
    && NonEmptyString(Field(v, Codes("run_id"))) && NonEmptyString(Field(v, Codes("scenario_id")))
    && NonEmptyString(version) && NonEmptyString(Field(v, Codes("compatibility_date")))
    && NonEmptyString(Field(v, Codes("runtime_period"))) && NonEmptyString(colo)
    && OneOf(Field(v, Codes("thermal_class")), THERMAL_CLASSES)
    && AcceptsEvidence(evidence)
    && (outcome.Null? || NonEmptyString(outcome))
    && (resolved ==> !outcome.Null?) && (!resolved ==> outcome.Null?)
    && (cpu.Null? || NonNegativeNumber(cpu))
    && ((Field(evidence, Codes("cpu_source")) == String(ADAPTIVE_SOURCE)) == !cpu.Null?)
    && (version == String(UNRESOLVED) ==> !resolved) && (version != String(UNRESOLVED) ==> resolved)
    && (resolved ==> colo != String(UNKNOWN)) && (!resolved ==> colo == String(UNKNOWN))
    && Timestamp(Field(v, Codes("observed_at")))
  }

  // ---- The fixture descriptor and the sweep report ---------------------------------------------------

  const DESCRIPTOR_FIELDS: seq<Text> :=
    [Codes("contract_id"), Codes("collection"), Codes("monolithic_key"), Codes("manifest_key"),
     Codes("log_seq_start")]

  predicate AcceptsDescriptor(v: Json) {
    && HasExactly(v, DESCRIPTOR_FIELDS)
    && Field(v, Codes("contract_id")) == String(CONTRACT_ID)
    && NonEmptyString(Field(v, Codes("collection"))) && NonEmptyString(Field(v, Codes("monolithic_key")))
    && NonEmptyString(Field(v, Codes("manifest_key")))
    && IntegerWithin(Field(v, Codes("log_seq_start")), 0, MAX_SAFE_INTEGER)
  }

  const SWEEP_CELL_FIELDS: seq<Text> :=
    [Codes("scenario_id"), Codes("axis"), Codes("target_bytes"), Codes("achieved_bytes"), Codes("row_count"),
     Codes("document_bytes"), Codes("manifest_descriptors"), Codes("fixture_prefix"), Codes("incarnation"),
     Codes("monolithic_key"), Codes("manifest_key"), Codes("descriptor_canonical_hash")]

  predicate AcceptsSweepCell(v: Json) {
    && HasExactly(v, SWEEP_CELL_FIELDS)
    && NonEmptyString(Field(v, Codes("scenario_id")))
    && OneOf(Field(v, Codes("axis")), [Codes("byte"), Codes("row")])
    && IntegerWithin(Field(v, Codes("target_bytes")), 1, MAX_SAFE_INTEGER)
    && IntegerWithin(Field(v, Codes("achieved_bytes")), 1, MAX_SAFE_INTEGER)
    && IntegerWithin(Field(v, Codes("row_count")), 1, MAX_SAFE_INTEGER)
    && IntegerWithin(Field(v, Codes("document_bytes")), 32, MAX_SAFE_INTEGER)
    && IntegerWithin(Field(v, Codes("manifest_descriptors")), 1, MAX_SAFE_INTEGER)
    && NonEmptyString(Field(v, Codes("fixture_prefix"))) && NonEmptyString(Field(v, Codes("incarnation")))
    && NonEmptyString(Field(v, Codes("monolithic_key"))) && NonEmptyString(Field(v, Codes("manifest_key")))
    && NonEmptyString(Field(v, Codes("descriptor_canonical_hash")))
  }

  const SWEEP_CLEANUP_FIELDS: seq<Text> :=
    [Codes("scenario_id"), Codes("fixture_prefix"), Codes("written_keys"), Codes("cleanup_authority")]

  /** The cleanup authority may be any value. */
  predicate AcceptsSweepCleanup(v: Json) {
    && HasExactly(v, SWEEP_CLEANUP_FIELDS)
    && NonEmptyString(Field(v, Codes("scenario_id"))) && NonEmptyString(Field(v, Codes("fixture_prefix")))
    && Field(v, Codes("written_keys")).Array?
    && forall key :: key in Field(v, Codes("written_keys")).items ==> NonEmptyString(key)
  }

  const SWEEP_REPORT_FIELDS: seq<Text> :=
    [Codes("contract_id"), Codes("sweep_id"), Codes("collection"), Codes("cells"), Codes("cleanup")]

  predicate AcceptsSweepReport(v: Json) {
    && HasExactly(v, SWEEP_REPORT_FIELDS)
    && Field(v, Codes("contract_id")) == String(CONTRACT_ID)
    && NonEmptyString(Field(v, Codes("sweep_id"))) && NonEmptyString(Field(v, Codes("collection")))
    && Field(v, Codes("cells")).Array? && Field(v, Codes("cleanup")).Array?
    && (forall cell :: cell in Field(v, Codes("cells")).items ==> AcceptsSweepCell(cell))
    && (forall cleanup :: cleanup in Field(v, Codes("cleanup")).items ==> AcceptsSweepCleanup(cleanup))
  }

  // ---- Every kind of record -----------------------------------------------------------------------------

  datatype RecordKind = RunRequest | Descriptor | SweepReport | InvocationRecord | RawEvent

  predicate AcceptsRecord(kind: RecordKind, v: Json) {
    match kind
    case RunRequest => AcceptsRunRequest(v)
    case Descriptor => AcceptsDescriptor(v)
    case SweepReport => AcceptsSweepReport(v)
    case InvocationRecord => AcceptsInvocationRecord(v)
    case RawEvent => AcceptsRawEvent(v)
  }

  function FieldsOf(kind: RecordKind): seq<Text> {
    match kind
    case RunRequest => RUN_REQUEST_FIELDS
    case Descriptor => DESCRIPTOR_FIELDS
    case SweepReport => SWEEP_REPORT_FIELDS
    case InvocationRecord => INVOCATION_RECORD_FIELDS
    case RawEvent => RAW_EVENT_FIELDS
  }

  lemma AcceptedHasItsFields(kind: RecordKind, v: Json)
    requires AcceptsRecord(kind, v)
    ensures HasExactly(v, FieldsOf(kind))
  {
  }

  lemma {:induction false} MemberIsFound(members: seq<Member>, i: nat)
    requires InKeyOrder(members) && i < |members|
    ensures Get(members, members[i].key) == members[i].value
  {
    if i > 0 {
      LessIsTotal(members[0].key, members[i].key);
      assert members[1..][i - 1] == members[i];
      MemberIsFound(members[1..], i - 1);
    }
  }

  /** The members of a value in key order are decided by which keys it has and what it has for each. */
  lemma {:induction false} SameFieldsSameMembers(a: seq<Member>, b: seq<Member>)
    requires InKeyOrder(a) && InKeyOrder(b) && forall m :: m in a <==> m in b
    ensures a == b
    decreases |a|
  {
    assert b != [] ==> b[0] in b;
    if a != [] {
      assert a[0] in b && b[0] in a;
      LessIsTotal(a[0].key, b[0].key);
      assert a[0] == b[0];
      forall m ensures m in a[1..] <==> m in b[1..] {
        OnlyOnce(a, m);
        OnlyOnce(b, m);
      }
      SameFieldsSameMembers(a[1..], b[1..]);
      assert a == [a[0]] + a[1..] && b == [b[0]] + b[1..];
    }
  }

  lemma OnlyOnce(a: seq<Member>, m: Member)
    requires InKeyOrder(a) && a != []
    ensures m in a[1..] <==> m in a && m != a[0]
  {
    assert a == [a[0]] + a[1..];
    forall i | 1 <= i < |a| ensures a[i] != a[0] {
      LessIsTotal(a[0].key, a[i].key);
    }
  }

  lemma MembersOfFields(v: Json, u: Json, fields: seq<Text>)
    requires HasExactly(v, fields) && HasExactly(u, fields) && InKeyOrder(v.members) && InKeyOrder(u.members)
    requires forall f :: f in fields ==> Field(v, f) == Field(u, f)
    ensures forall m :: m in v.members ==> m in u.members
  {
    forall m | m in v.members ensures m in u.members {
      var i :| 0 <= i < |v.members| && v.members[i] == m;
      assert Keys(v.members)[i] == m.key;
      assert m.key in Keys(v.members) && m.key in Keys(u.members);
      var j :| 0 <= j < |Keys(u.members)| && Keys(u.members)[j] == m.key;
      MemberIsFound(v.members, i);
      MemberIsFound(u.members, j);
      assert u.members[j] == m;
    }
  }

  /**
   Of every kind of record: what decodes passes its test, from a text that its fields decide.  No member
   outside the field set, no spelling and no order tells two accepted texts apart.
   */
  lemma RecordsHaveOneText(raw: Text, other: Text, v: Json, u: Json, kind: RecordKind, numbers: Numbers)
    requires PrintsCanonically(numbers)
    requires WireCodec.Decode(raw, v => AcceptsRecord(kind, v), numbers) == Ok(v)
    requires WireCodec.Decode(other, v => AcceptsRecord(kind, v), numbers) == Ok(u)
    ensures AcceptsRecord(kind, v) && Serializable(v)
    ensures raw == other <==> forall f :: f in FieldsOf(kind) ==> Field(v, f) == Field(u, f)
  {
    hide *;
    DecodesExactly(raw, v, v => AcceptsRecord(kind, v), numbers);
    DecodesExactly(other, u, v => AcceptsRecord(kind, v), numbers);
    RecordFacts(kind, v, numbers);
    RecordFacts(kind, u, numbers);
    if raw == other {
      PrintInjective(v, u);
    }
    if forall f :: f in FieldsOf(kind) ==> Field(v, f) == Field(u, f) {
      MembersOfFields(v, u, FieldsOf(kind));
      MembersOfFields(u, v, FieldsOf(kind));
      SameFieldsSameMembers(v.members, u.members);
    }
  }

  lemma RecordFacts(kind: RecordKind, v: Json, numbers: Numbers)
    requires AcceptsRecord(kind, v) && IsNormal(v, numbers)
    ensures v.Object? && InKeyOrder(v.members) && HasExactly(v, FieldsOf(kind)) && WellFormed(v)
  {
    hide AcceptsRecord, FieldsOf;
    AcceptedHasItsFields(kind, v);
    NormalFixes(v, numbers);
  }

  // ---- What the serializer refuses ------------------------------------------------------------------------

  lemma FieldIsMember(v: Json, fields: seq<Text>, f: Text) returns (i: nat)
    requires HasExactly(v, fields) && InKeyOrder(v.members) && f in fields
    ensures i < |v.members| && v.members[i].key == f && v.members[i].value == Field(v, f)
  {
    assert f in Keys(v.members);
    i :| 0 <= i < |Keys(v.members)| && Keys(v.members)[i] == f;
    MemberIsFound(v.members, i);
  }

  /** A value with exactly these fields fits when each of them does, one level down. */
  lemma FitsByField(v: Json, fields: seq<Text>, budget: nat)
    requires HasExactly(v, fields) && InKeyOrder(v.members) && fields != [] && budget > 0
    requires CanonicalModel.PROTO_KEY !in fields
    ensures Fits(v, budget) <==> forall f :: f in fields ==> Fits(Field(v, f), budget - 1)
  {
    hide Field, InKeyOrder;
    assert fields[0] in fields;
    if Fits(v, budget) {
      forall f | f in fields ensures Fits(Field(v, f), budget - 1) {
        var i := FieldIsMember(v, fields, f);
      }
    }
    if forall f :: f in fields ==> Fits(Field(v, f), budget - 1) {
      forall i | 0 <= i < |v.members|
        ensures v.members[i].key != CanonicalModel.PROTO_KEY && Fits(v.members[i].value, budget - 1)
      {
        assert Keys(v.members)[i] == v.members[i].key;
        assert v.members[i].key in Keys(v.members);
        FieldOfMember(v, i);
      }
    }
  }

  lemma FieldOfMember(v: Json, i: nat)
    requires v.Object? && InKeyOrder(v.members) && i < |v.members|
    ensures Field(v, v.members[i].key) == v.members[i].value
  {
    MemberIsFound(v.members, i);
  }

  lemma FieldIsNormal(v: Json, fields: seq<Text>, f: Text, numbers: Numbers)
    requires IsNormal(v, numbers) && HasExactly(v, fields) && f in fields
    ensures InKeyOrder(v.members) && IsNormal(Field(v, f), numbers)
  {
    var i := FieldIsMember(v, fields, f);
  }

  /** No field is named like the key that the serializer forbids. */
  predicate NoneForbidden(fields: seq<Text>) {
    forall i :: 0 <= i < |fields| ==> fields[i] != [] && fields[i][0] != 0x5F
  }

  lemma ForbiddenIsNoField(fields: seq<Text>)
    requires NoneForbidden(fields)
    ensures CanonicalModel.PROTO_KEY !in fields
  {
  }

  lemma FieldsAreNamed(kind: RecordKind)
    ensures FieldsOf(kind) != [] && NoneForbidden(FieldsOf(kind))
  {
  }

  lemma InnerFieldsAreNamed()
    ensures NoneForbidden(EVIDENCE_BLOCK_FIELDS) && NoneForbidden(SWEEP_CELL_FIELDS)
    ensures NoneForbidden(SWEEP_CLEANUP_FIELDS)
  {
  }

  predicate IsScalar(v: Json) {
    !v.Array? && !v.Object?
  }

  predicate AllScalar(v: Json, fields: seq<Text>) {
    forall i :: 0 <= i < |fields| ==> IsScalar(Field(v, fields[i]))
  }

  lemma FlatRunRequest(v: Json)
    requires AcceptsRunRequest(v)
    ensures AllScalar(v, RUN_REQUEST_FIELDS)
  {
    hide Field, CleanPrefix, HasExactly;
  }

  lemma FlatDescriptor(v: Json)
    requires AcceptsDescriptor(v)
    ensures AllScalar(v, DESCRIPTOR_FIELDS)
  {
    hide Field, HasExactly;
  }

  lemma FlatInvocation(v: Json)
    requires AcceptsInvocationRecord(v)
    ensures AllScalar(v, INVOCATION_RECORD_FIELDS)
  {
    hide Field, HasExactly, IsUtcTimestamp;
  }

  lemma FlatEvidence(v: Json)
    requires AcceptsEvidence(v)
    ensures HasExactly(v, EVIDENCE_BLOCK_FIELDS) && AllScalar(v, EVIDENCE_BLOCK_FIELDS)
  {
    hide Field, HasExactly;
  }

  lemma FlatRawEvent(v: Json)
    requires AcceptsRawEvent(v)
    ensures AcceptsEvidence(Field(v, RAW_EVENT_FIELDS[11])) && RAW_EVENT_FIELDS[11] in RAW_EVENT_FIELDS
    ensures AllScalar(v, RAW_EVENT_FIELDS[..11])
  {
    hide Field, HasExactly, IsUtcTimestamp, AcceptsEvidence;
  }

  lemma FlatCell(v: Json)
    requires AcceptsSweepCell(v)
    ensures HasExactly(v, SWEEP_CELL_FIELDS) && AllScalar(v, SWEEP_CELL_FIELDS)
  {
    hide Field, HasExactly;
  }

  /** A value of scalar fields fits wherever an object may stand. */
  lemma FlatFits(v: Json, fields: seq<Text>, numbers: Numbers, budget: nat)
    requires HasExactly(v, fields) && IsNormal(v, numbers) && AllScalar(v, fields) && NoneForbidden(fields)
    requires fields != [] && budget > 0
    ensures Fits(v, budget)
  {
    hide HasExactly, Field, IsNormal, InKeyOrder, NoneForbidden;
    ObjectInOrder(v, fields, numbers);
    ForbiddenIsNoField(fields);
    FitsByField(v, fields, budget);
  }

  lemma RawEventFits(v: Json, numbers: Numbers)
    requires AcceptsRawEvent(v) && IsNormal(v, numbers) && HasExactly(v, RAW_EVENT_FIELDS)
    ensures Serializable(v)
  {
    hide AcceptsRawEvent, AcceptsEvidence, HasExactly, Field, IsNormal, InKeyOrder, NoneForbidden;
    var fields, depth := RAW_EVENT_FIELDS, CanonicalModel.MAX_DEPTH;
    FieldsAreNamed(RawEvent);
    InnerFieldsAreNamed();
    FlatRawEvent(v);
    FieldIsNormal(v, fields, fields[11], numbers);
    var evidence := Field(v, fields[11]);
    FlatEvidence(evidence);
    FlatFits(evidence, EVIDENCE_BLOCK_FIELDS, numbers, depth - 1);
    ForbiddenIsNoField(fields);
    forall f | f in fields ensures Fits(Field(v, f), depth - 1) {
      var i :| 0 <= i < |fields| && fields[i] == f;
      assert i < 11 ==> fields[..11][i] == f;
    }
    FitsByField(v, fields, depth);
  }

  /** Every accepted record but a sweep report can be serialized. */
  lemma FlatRecordsAreSerializable(kind: RecordKind, v: Json, numbers: Numbers)
    requires AcceptsRecord(kind, v) && IsNormal(v, numbers) && !kind.SweepReport?
    ensures Serializable(v)
  {
    RecordFacts(kind, v, numbers);
    FieldsAreNamed(kind);
    hide AcceptsRunRequest, AcceptsDescriptor, AcceptsInvocationRecord, AcceptsRawEvent, AcceptsSweepReport;
    hide HasExactly, IsNormal, NoneForbidden, AllScalar, Fits;
    match kind
    case RunRequest =>
      FlatRunRequest(v);
      FlatFits(v, RUN_REQUEST_FIELDS, numbers, CanonicalModel.MAX_DEPTH);
    case Descriptor =>
      FlatDescriptor(v);
      FlatFits(v, DESCRIPTOR_FIELDS, numbers, CanonicalModel.MAX_DEPTH);
    case InvocationRecord =>
      FlatInvocation(v);
      FlatFits(v, INVOCATION_RECORD_FIELDS, numbers, CanonicalModel.MAX_DEPTH);
    case RawEvent => RawEventFits(v, numbers);
  }

  lemma ObjectInOrder(v: Json, fields: seq<Text>, numbers: Numbers)
    requires IsNormal(v, numbers) && HasExactly(v, fields)
    ensures InKeyOrder(v.members)
  {
  }

  const CELLS: Text := Codes("cells")
  const CLEANUP: Text := Codes("cleanup")
  const AUTHORITY: Text := Codes("cleanup_authority")

  lemma CleanupFits(v: Json, numbers: Numbers, budget: nat)
    requires AcceptsSweepCleanup(v) && IsNormal(v, numbers) && budget > 1
    ensures Fits(v, budget) <==> Fits(Field(v, AUTHORITY), budget - 1)
  {
    hide IsNormal, Field, InKeyOrder, HasExactly, NoneForbidden;
    ObjectInOrder(v, SWEEP_CLEANUP_FIELDS, numbers);
    InnerFieldsAreNamed();
    ForbiddenIsNoField(SWEEP_CLEANUP_FIELDS);
    FitsByField(v, SWEEP_CLEANUP_FIELDS, budget);
    CleanupFields(v, budget - 1);
    assert AUTHORITY in SWEEP_CLEANUP_FIELDS by { assert SWEEP_CLEANUP_FIELDS[3] == AUTHORITY; }
    forall f | f in SWEEP_CLEANUP_FIELDS && f != AUTHORITY ensures Fits(Field(v, f), budget - 1) {
      var i :| 0 <= i < |SWEEP_CLEANUP_FIELDS| && SWEEP_CLEANUP_FIELDS[i] == f;
    }
  }

  lemma CleanupFields(v: Json, budget: nat)
    requires AcceptsSweepCleanup(v) && budget > 0
    ensures forall i :: 0 <= i < 3 ==> Fits(Field(v, SWEEP_CLEANUP_FIELDS[i]), budget)
  {
    hide Field, HasExactly;
    var keys := Field(v, Codes("written_keys"));
    assert forall i :: 0 <= i < |keys.items| ==> keys.items[i] in keys.items;
    assert Fits(keys, budget);
  }

  lemma CellFits(v: Json, numbers: Numbers, budget: nat)
    requires AcceptsSweepCell(v) && IsNormal(v, numbers) && budget > 0
    ensures Fits(v, budget)
  {
    hide IsNormal, HasExactly, NoneForbidden, AllScalar, AcceptsSweepCell;
    FlatCell(v);
    InnerFieldsAreNamed();
    FlatFits(v, SWEEP_CELL_FIELDS, numbers, budget);
  }

  /**
   An accepted sweep report can be serialized exactly when every cleanup authority, the one field that may
   hold anything, is nested at most 253 deep and has no forbidden key.
   */
  lemma SweepReportsAreSerializableExactly(v: Json, numbers: Numbers)
    requires AcceptsSweepReport(v) && IsNormal(v, numbers)
    ensures
      Serializable(v) <==>
      forall cleanup :: cleanup in Field(v, CLEANUP).items ==>
        Fits(Field(cleanup, AUTHORITY), CanonicalModel.MAX_DEPTH - 3)
  {
    hide IsNormal, Field, InKeyOrder, HasExactly, AcceptsSweepCell, AcceptsSweepCleanup, NoneForbidden;
    var depth := CanonicalModel.MAX_DEPTH;
    ObjectInOrder(v, SWEEP_REPORT_FIELDS, numbers);
    FieldsAreNamed(SweepReport);
    ForbiddenIsNoField(SWEEP_REPORT_FIELDS);
    FitsByField(v, SWEEP_REPORT_FIELDS, depth);
    ReportFields(v, depth - 1);
    FieldIsNormal(v, SWEEP_REPORT_FIELDS, CELLS, numbers);
    FieldIsNormal(v, SWEEP_REPORT_FIELDS, CLEANUP, numbers);
    ItemsNormal(Field(v, CELLS), numbers);
    ItemsNormal(Field(v, CLEANUP), numbers);
    CellsFit(Field(v, CELLS), numbers, depth - 1);
    CleanupsFit(Field(v, CLEANUP), numbers, depth - 1);
    forall f | f in SWEEP_REPORT_FIELDS && f != CLEANUP ensures Fits(Field(v, f), depth - 1) {
      var i :| 0 <= i < |SWEEP_REPORT_FIELDS| && SWEEP_REPORT_FIELDS[i] == f;
    }
  }

  lemma ReportFields(v: Json, budget: nat)
    requires AcceptsSweepReport(v)
    ensures forall i :: 0 <= i < 3 ==> Fits(Field(v, SWEEP_REPORT_FIELDS[i]), budget)
    ensures SWEEP_REPORT_FIELDS[3] == CELLS && SWEEP_REPORT_FIELDS[4] == CLEANUP
    ensures CELLS in SWEEP_REPORT_FIELDS && CLEANUP in SWEEP_REPORT_FIELDS
  {
    hide Field, HasExactly, AcceptsSweepCell, AcceptsSweepCleanup;
    assert SWEEP_REPORT_FIELDS[3] in SWEEP_REPORT_FIELDS && SWEEP_REPORT_FIELDS[4] in SWEEP_REPORT_FIELDS;
  }

  lemma CellsFit(v: Json, numbers: Numbers, budget: nat)
    requires v.Array? && budget > 1 && forall cell :: cell in v.items ==> AcceptsSweepCell(cell)
    requires forall i :: 0 <= i < |v.items| ==> IsNormal(v.items[i], numbers)
    ensures Fits(v, budget)
  {
    hide AcceptsSweepCell, IsNormal;
    forall i | 0 <= i < |v.items| ensures Fits(v.items[i], budget - 1) {
      assert v.items[i] in v.items;
      CellFits(v.items[i], numbers, budget - 1);
    }
  }

  lemma CleanupsFit(v: Json, numbers: Numbers, budget: nat)
    requires v.Array? && budget > 2 && forall cleanup :: cleanup in v.items ==> AcceptsSweepCleanup(cleanup)
    requires forall i :: 0 <= i < |v.items| ==> IsNormal(v.items[i], numbers)
    ensures Fits(v, budget) <==>
      forall cleanup :: cleanup in v.items ==> Fits(Field(cleanup, AUTHORITY), budget - 2)
  {
    hide AcceptsSweepCleanup, IsNormal, Field;
    forall i | 0 <= i < |v.items|
      ensures Fits(v.items[i], budget - 1) <==> Fits(Field(v.items[i], AUTHORITY), budget - 2)
    {
      assert v.items[i] in v.items;
      CleanupFits(v.items[i], numbers, budget - 1);
    }
    assert Fits(v, budget) <==> forall i :: 0 <= i < |v.items| ==> Fits(v.items[i], budget - 1);
  }

  lemma ItemsNormal(v: Json, numbers: Numbers)
    requires v.Array? && IsNormal(v, numbers)
    ensures forall i :: 0 <= i < |v.items| ==> IsNormal(v.items[i], numbers)
  {
  }
}
