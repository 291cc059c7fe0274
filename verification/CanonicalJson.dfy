/**
 Canonical JSON of a graph of JavaScript objects.

 `JsHeap` holds the objects as reflection sees them, `CanonicalModel` the serializer with the order
 of its checks, the rejection reasons and the paths, and `CanonicalTheory` what it promises:
 which values it accepts and what text it gives them, and what cannot influence the outcome.
 `CanonicalJson` is the serializer itself, with its mutable set of ancestors.
 */
module JsHeap {

  import opened Options
  import opened UnicodeText
  import opened JsonText

  /** A number is represented by the numeral the platform prints for it, so 0 and -0 coincide. */
  datatype JsValue =
    | Undefined | FunctionValue | SymbolValue | BigIntValue | NonFinite
    | NullValue | BooleanValue(truth: bool) | NumberValue(numeral: Text) | StringValue(text: Text)
    | Reference(id: nat)

  /** `defined`: the property has a getter or a setter. */
  datatype Descriptor =
    | Data(value: JsValue, enumerable: bool)
    | Accessor(defined: bool, enumerable: bool)

  datatype Property = Property(key: Text, descriptor: Descriptor)

  datatype Kind = ArrayKind(length: nat) | PlainKind | ExoticKind

  /** Own string-keyed properties in insertion order, without an array's `length`. */
  datatype JsObject = JsObject(kind: Kind, properties: seq<Property>, symbolKeyed: bool)

  type Heap = nat -> JsObject

  predicate Distinct(properties: seq<Property>) {
    forall i, j :: 0 <= i < j < |properties| ==> properties[i].key != properties[j].key
  }

  /** No object has two properties of one key. */
  ghost predicate Proper(heap: Heap) {
    forall id: nat :: Distinct(heap(id).properties)
  }

  function ValueOf(descriptor: Descriptor): JsValue {
    if descriptor.Data? then descriptor.value else Undefined
  }

  function Find(properties: seq<Property>, key: Text): (r: Option<Property>)
    ensures r.Some? ==> r.value in properties && r.value.key == key
    ensures r.None? ==> forall p :: p in properties ==> p.key != key
  {
    if properties == [] then None
    else if properties[0].key == key then Some(properties[0])
    else Find(properties[1..], key)
  }

  lemma FindDecided(a: seq<Property>, b: seq<Property>, key: Text)
    requires Distinct(a) && Distinct(b) && forall p :: p in a <==> p in b
    ensures Find(a, key) == Find(b, key)
  {
  }

  // ---- Key order (section 3.2.3 of RFC 8785) ----------------------------------------------------

  predicate Less(a: Text, b: Text) {
    if b == [] then false
    else if a == [] then true
    else if a[0] != b[0] then a[0] < b[0]
    else Less(a[1..], b[1..])
  }

  lemma {:induction false} LessIsTotal(a: Text, b: Text)
    ensures a != b ==> Less(a, b) || Less(b, a)
    ensures Less(a, b) ==> a != b && !Less(b, a)
    decreases |a|
  {
    if a != [] && b != [] && a[0] == b[0] {
      LessIsTotal(a[1..], b[1..]);
      assert a == [a[0]] + a[1..] && b == [b[0]] + b[1..];
    }
  }

  lemma {:induction false} LessIsTransitive(a: Text, b: Text, c: Text)
    requires Less(a, b) && Less(b, c)
    ensures Less(a, c)
    decreases |a|
  {
    if a != [] && a[0] == b[0] == c[0] {
      LessIsTransitive(a[1..], b[1..], c[1..]);
    }
  }

  predicate InOrder(properties: seq<Property>) {
    forall i, j :: 0 <= i < j < |properties| ==> Less(properties[i].key, properties[j].key)
  }

  function Insert(p: Property, sorted: seq<Property>): (r: seq<Property>)
    ensures |r| == |sorted| + 1
    ensures forall q :: q in r <==> q == p || q in sorted
  {
    if sorted == [] then [p]
    else if Less(p.key, sorted[0].key) then [p] + sorted
    else
      assert sorted == [sorted[0]] + sorted[1..];
      [sorted[0]] + Insert(p, sorted[1..])
  }

  function Sorted(properties: seq<Property>): (r: seq<Property>)
    ensures |r| == |properties|
    ensures forall q :: q in r <==> q in properties
  {
    if properties == [] then []
    else
      assert properties == [properties[0]] + properties[1..];
      Insert(properties[0], Sorted(properties[1..]))
  }

  lemma {:induction false} InsertKeepsOrder(p: Property, sorted: seq<Property>)
    requires InOrder(sorted) && forall q :: q in sorted ==> q.key != p.key
    ensures InOrder(Insert(p, sorted))
    decreases |sorted|
  {
    if sorted != [] {
      var r := Insert(p, sorted);
      LessIsTotal(p.key, sorted[0].key);
      if Less(p.key, sorted[0].key) {
        forall j | 0 <= j < |sorted| ensures Less(p.key, sorted[j].key) {
          if j > 0 {
            LessIsTransitive(p.key, sorted[0].key, sorted[j].key);
          }
        }
      } else {
        InsertKeepsOrder(p, sorted[1..]);
        forall j | 0 < j < |r| ensures Less(r[0].key, r[j].key) {
          assert r[j] in Insert(p, sorted[1..]);
        }
      }
    }
  }

  lemma {:induction false} SortedInOrder(properties: seq<Property>)
    requires Distinct(properties)
    ensures InOrder(Sorted(properties)) && Distinct(Sorted(properties))
    decreases |properties|
  {
    if properties != [] {
      SortedInOrder(properties[1..]);
      forall q | q in Sorted(properties[1..]) ensures q.key != properties[0].key {
        assert q in properties[1..];
      }
      InsertKeepsOrder(properties[0], Sorted(properties[1..]));
    }
    InOrderDistinct(Sorted(properties));
  }

  lemma InOrderDistinct(properties: seq<Property>)
    requires InOrder(properties)
    ensures Distinct(properties)
  {
    forall i, j | 0 <= i < j < |properties| ensures properties[i].key != properties[j].key {
      LessIsTotal(properties[i].key, properties[j].key);
    }
  }

  lemma HeadIsLeast(a: seq<Property>, p: Property)
    requires InOrder(a) && p in a
    ensures p == a[0] || Less(a[0].key, p.key)
  {
  }

  lemma HasMember(a: seq<Property>)
    requires a != []
    ensures exists p :: p in a
  {
    assert a[0] in a;
  }

  /** One ordering of a set of properties is sorted. */
  lemma {:induction false} OneOrder(a: seq<Property>, b: seq<Property>)
    requires InOrder(a) && InOrder(b) && forall p :: p in a <==> p in b
    ensures a == b
    decreases |a|
  {
    if a == [] {
      if b != [] {
        HasMember(b);
      }
    } else {
      assert a[0] in b && b[0] in a;
      HeadIsLeast(a, b[0]);
      HeadIsLeast(b, a[0]);
      LessIsTotal(a[0].key, b[0].key);
      assert a == [a[0]] + a[1..] && b == [b[0]] + b[1..];
      InOrderDistinct(a);
      InOrderDistinct(b);
      forall p ensures p in a[1..] <==> p in b[1..] {
        assert p in a[1..] ==> p in b && p != a[0];
        assert p in b[1..] ==> p in a && p != b[0];
      }
      OneOrder(a[1..], b[1..]);
    }
  }

  lemma SortForgetsOrder(a: seq<Property>, b: seq<Property>)
    requires Distinct(a) && Distinct(b) && forall p :: p in a <==> p in b
    ensures Sorted(a) == Sorted(b)
  {
    SortedInOrder(a);
    SortedInOrder(b);
    OneOrder(Sorted(a), Sorted(b));
  }

  // ---- Array indices ------------------------------------------------------------------------------

  function Decimal(n: nat): (s: Text)
    ensures s != [] && forall k :: 0 <= k < |s| ==> IsDigit(s[k])
    ensures s[0] == 0x30 <==> n == 0
  {
    if n < 10 then [0x30 + n] else Decimal(n / 10) + [0x30 + n % 10]
  }

  function DecimalValue(s: Text): nat
    requires forall k :: 0 <= k < |s| ==> IsDigit(s[k])
  {
    if s == [] then 0
    else
      var digit: int := s[|s| - 1];
      assert IsDigit(s[|s| - 1]);
      DecimalValue(s[..|s| - 1]) * 10 + (digit - 0x30)
  }

  predicate IsArrayIndex(key: Text, length: nat) {
    if key == [0x30] then length > 0
    else
      key != [] && key[0] != 0x30 && (forall k :: 0 <= k < |key| ==> IsDigit(key[k])) &&
      DecimalValue(key) < length
  }

  lemma {:induction false} DecimalReadsBack(n: nat)
    ensures DecimalValue(Decimal(n)) == n
  {
    var s := Decimal(n);
    if n >= 10 {
      DecimalReadsBack(n / 10);
      assert s[..|s| - 1] == Decimal(n / 10);
    } else {
      assert s[..0] == [];
    }
  }

  lemma {:induction false} DecimalPrintsBack(s: Text)
    requires s != [] && s[0] != 0x30 && forall k :: 0 <= k < |s| ==> IsDigit(s[k])
    ensures DecimalValue(s) > 0 && Decimal(DecimalValue(s)) == s
    decreases |s|
  {
    var head := s[..|s| - 1];
    assert s == head + [s[|s| - 1]];
    if head != [] {
      DecimalPrintsBack(head);
    } else {
      assert DecimalValue(head) == 0;
    }
  }

  /** The test accepts exactly the printed indices below the length. */
  lemma ArrayIndexExactly(key: Text, length: nat)
    ensures IsArrayIndex(key, length) <==> exists n: nat :: n < length && key == Decimal(n)
  {
    if IsArrayIndex(key, length) {
      if key == [0x30] {
        assert Decimal(0) == key;
      } else {
        DecimalPrintsBack(key);
        assert Decimal(DecimalValue(key)) == key;
      }
    }
    if n: nat :| n < length && key == Decimal(n) {
      DecimalReadsBack(n);
    }
  }
}

module CanonicalModel {

  import opened Options
  import opened UnicodeText
  import opened JsonText
  import opened JsHeap

  const MAX_DEPTH: nat := 256

  /** The key `__proto__`. */
  const PROTO_KEY: Text := [0x5F, 0x5F, 0x70, 0x72, 0x6F, 0x74, 0x6F, 0x5F, 0x5F]

  datatype Reason =
    | UndefinedRejected | FunctionRejected | SymbolRejected | BigIntRejected | NonFiniteNumber
    | NonIjsonString | NonPlainObject | CyclicReference | ArrayHole | ArrayExtraProperty
    | SymbolKey | ForbiddenKey | NonEnumerableOwnProperty | AccessorOwnProperty | MaxDepthExceeded

  datatype Step = Index(index: nat) | Key(key: Text)

  type Path = seq<Step>

  datatype Result<+T> = Accepted(value: T) | Rejected(reason: Reason, path: Path)

  datatype Child = Child(step: Step, value: JsValue)

  function StepOf(kind: Kind, key: Text): Step {
    if kind.ArrayKind? && IsArrayIndex(key, kind.length) then Index(DecimalValue(key)) else Key(key)
  }

  function Defect(kind: Kind, p: Property): Option<Reason> {
    if !Scans(p.key) then Some(NonIjsonString)
    else if p.descriptor.Accessor? && p.descriptor.defined then Some(AccessorOwnProperty)
    else if !p.descriptor.enumerable then Some(NonEnumerableOwnProperty)
    else if p.key == PROTO_KEY then Some(ForbiddenKey)
    else if kind.ArrayKind? && !IsArrayIndex(p.key, kind.length) then Some(ArrayExtraProperty)
    else None
  }

  /** The first property at fault, in the order given. */
  function FirstDefect(kind: Kind, properties: seq<Property>): Option<(Reason, Step)> {
    if properties == [] then None
    else
      match Defect(kind, properties[0])
      case Some(reason) => Some((reason, StepOf(kind, properties[0].key)))
      case None => FirstDefect(kind, properties[1..])
  }

  /** The own properties in key order, or the first complaint about them in that order. */
  function OwnDataProperties(o: JsObject, path: Path): Result<seq<Property>> {
    if o.symbolKeyed then Rejected(SymbolKey, path)
    else
      match FirstDefect(o.kind, Sorted(o.properties))
      case Some((reason, step)) => Rejected(reason, path + [step])
      case None => Accepted(Sorted(o.properties))
  }

  predicate Filled(properties: seq<Property>, index: nat) {
    Find(properties, Decimal(index)).Some?
  }

  function FirstHole(properties: seq<Property>, length: nat): Option<nat> {
    if length == 0 then None
    else if FirstHole(properties, length - 1).Some? then FirstHole(properties, length - 1)
    else if !Filled(properties, length - 1) then Some(length - 1)
    else None
  }

  function ChildAt(properties: seq<Property>, index: nat): Child {
    match Find(properties, Decimal(index))
    case Some(p) => Child(Index(index), ValueOf(p.descriptor))
    case None => Child(Index(index), Undefined)
  }

  function ChildrenOf(kind: Kind, sorted: seq<Property>): (r: seq<Child>)
    ensures kind.ArrayKind? ==> |r| == kind.length
    ensures !kind.ArrayKind? ==> |r| == |sorted|
  {
    if kind.ArrayKind? then seq(kind.length, i requires i >= 0 => ChildAt(sorted, i))
    else seq(|sorted|, i requires 0 <= i < |sorted| => Child(Key(sorted[i].key), ValueOf(sorted[i].descriptor)))
  }

  /** What is checked about one object before its children are visited, and those children. */
  function Inspect(o: JsObject, path: Path): Result<seq<Child>> {
    if o.kind.ExoticKind? then Rejected(NonPlainObject, path)
    else if o.kind.ArrayKind? && FirstHole(o.properties, o.kind.length).Some? then
      Rejected(ArrayHole, path + [Index(FirstHole(o.properties, o.kind.length).value)])
    else
      match OwnDataProperties(o, path)
      case Rejected(reason, at) => Rejected(reason, at)
      case Accepted(sorted) => Accepted(ChildrenOf(o.kind, sorted))
  }

  function Entry(step: Step, text: Text): Text {
    match step
    case Index(_) => text
    case Key(key) => Quote(key) + [COLON] + text
  }

  function Join(texts: seq<Text>): Text {
    if texts == [] then []
    else texts[0] + (if |texts| == 1 then [] else [COMMA] + Join(texts[1..]))
  }

  function Wrap(kind: Kind, texts: seq<Text>): Text {
    if kind.ArrayKind? then [OPEN_BRACKET] + Join(texts) + [CLOSE_BRACKET]
    else [OPEN_BRACE] + Join(texts) + [CLOSE_BRACE]
  }

  function Serialize(heap: Heap, value: JsValue, path: Path, depth: nat, ancestors: set<nat>): Result<Text>
    requires depth <= MAX_DEPTH + 1
    decreases MAX_DEPTH + 1 - depth, 0
  {
    if depth > MAX_DEPTH then Rejected(MaxDepthExceeded, path)
    else
      match value
      case NullValue => Accepted(NULL_WORD)
      case Undefined => Rejected(UndefinedRejected, path)
      case FunctionValue => Rejected(FunctionRejected, path)
      case SymbolValue => Rejected(SymbolRejected, path)
      case BigIntValue => Rejected(BigIntRejected, path)
      case BooleanValue(truth) => Accepted(if truth then TRUE_WORD else FALSE_WORD)
      case StringValue(text) => if Scans(text) then Accepted(Quote(text)) else Rejected(NonIjsonString, path)
      case NonFinite => Rejected(NonFiniteNumber, path)
      case NumberValue(numeral) => Accepted(numeral)
      case Reference(id) =>
        if id in ancestors then Rejected(CyclicReference, path)
        else
          match Inspect(heap(id), path)
          case Rejected(reason, at) => Rejected(reason, at)
          case Accepted(children) =>
            match SerializeAll(heap, children, path, depth + 1, ancestors + {id})
            case Rejected(reason, at) => Rejected(reason, at)
            case Accepted(texts) => Accepted(Wrap(heap(id).kind, texts))
  }

  /** The entries of the children, in order, up to the first that is rejected. */
  function SerializeAll(heap: Heap, children: seq<Child>, path: Path, depth: nat, ancestors: set<nat>)
    : (r: Result<seq<Text>>)
    requires depth <= MAX_DEPTH + 1
    ensures r.Accepted? ==> |r.value| == |children|
    decreases MAX_DEPTH + 1 - depth, |children|
  {
    if children == [] then Accepted([])
    else
      match SerializeAll(heap, children[..|children| - 1], path, depth, ancestors)
      case Rejected(reason, at) => Rejected(reason, at)
      case Accepted(texts) =>
        var last := children[|children| - 1];
        match Serialize(heap, last.value, path + [last.step], depth, ancestors)
        case Rejected(reason, at) => Rejected(reason, at)
        case Accepted(text) => Accepted(texts + [Entry(last.step, text)])
  }

  lemma NoChildren(heap: Heap, path: Path, depth: nat, ancestors: set<nat>)
    requires depth <= MAX_DEPTH + 1
    ensures SerializeAll(heap, [], path, depth, ancestors) == Accepted([])
  {
  }

  function Canonical(heap: Heap, value: JsValue): Result<Text> {
    Serialize(heap, value, [], 0, {})
  }

  // ---- Which values are JSON, whatever order anything is looked at -------------------------------

  predicate AdmissibleProperty(kind: Kind, p: Property) {
    && Scans(p.key) && p.key != PROTO_KEY
    && p.descriptor.enumerable && (p.descriptor.Accessor? ==> !p.descriptor.defined)
    && (kind.ArrayKind? ==> IsArrayIndex(p.key, kind.length))
  }

  predicate Admissible(o: JsObject) {
    && !o.kind.ExoticKind? && !o.symbolKeyed
    && (forall p :: p in o.properties ==> AdmissibleProperty(o.kind, p))
    && (o.kind.ArrayKind? ==> forall i: nat :: i < o.kind.length ==> Filled(o.properties, i))
  }

  function Assemble(kind: Kind, children: seq<Child>, trees: seq<Json>): Json
    requires |trees| == |children|
  {
    if kind.ArrayKind? then Array(trees)
    else Object(seq(|trees|, i requires 0 <= i < |trees| =>
      Member(if children[i].step.Key? then children[i].step.key else [], trees[i])))
  }

  /** The JSON value a JavaScript value stands for, nested at most `budget` deep. */
  function Tree(heap: Heap, value: JsValue, budget: nat): Option<Json>
    decreases budget, 1
  {
    match value
    case NullValue => Some(Null)
    case BooleanValue(truth) => Some(Boolean(truth))
    case NumberValue(numeral) => Some(Number(numeral))
    case StringValue(text) => if Scans(text) then Some(String(text)) else None
    case Reference(id) => ContainerTree(heap, id, budget)
    case _ => None
  }

  function ContainerTree(heap: Heap, id: nat, budget: nat): Option<Json>
    decreases budget, 0
  {
    var o := heap(id);
    if !Admissible(o) then None
    else
      var children := ChildrenOf(o.kind, Sorted(o.properties));
      if children == [] then Some(Assemble(o.kind, [], []))
      else if budget == 0 then None
      else
        match Trees(heap, children, budget - 1)
        case None => None
        case Some(trees) => Some(Assemble(o.kind, children, trees))
  }

  function Trees(heap: Heap, children: seq<Child>, budget: nat): (r: Option<seq<Json>>)
    ensures r.Some? ==> |r.value| == |children|
    decreases budget, |children| + 2
  {
    if children == [] then Some([])
    else
      match (Trees(heap, children[..|children| - 1], budget), Tree(heap, children[|children| - 1].value, budget))
      case (Some(trees), Some(tree)) => Some(trees + [tree])
      case _ => None
  }
}

module CanonicalJson {

  import opened Options
  import opened UnicodeText
  import opened JsonText
  import opened JsHeap
  import opened CanonicalModel

  lemma {:induction false} RejectionStands(heap: Heap, children: seq<Child>, k: nat,
                                           path: Path, depth: nat, ancestors: set<nat>)
    requires depth <= MAX_DEPTH + 1 && k <= |children|
    requires SerializeAll(heap, children[..k], path, depth, ancestors).Rejected?
    ensures SerializeAll(heap, children, path, depth, ancestors) ==
            SerializeAll(heap, children[..k], path, depth, ancestors)
    decreases |children|
  {
    hide Serialize;
    if k < |children| {
      var initial := children[..|children| - 1];
      assert initial[..k] == children[..k];
      RejectionStands(heap, initial, k, path, depth, ancestors);
    } else {
      assert children[..k] == children;
    }
  }

  lemma OneMore(heap: Heap, children: seq<Child>, k: nat, path: Path, depth: nat, ancestors: set<nat>)
    requires depth <= MAX_DEPTH + 1 && k < |children|
    requires SerializeAll(heap, children[..k], path, depth, ancestors).Accepted?
    ensures
      var texts := SerializeAll(heap, children[..k], path, depth, ancestors).value;
      var r := Serialize(heap, children[k].value, path + [children[k].step], depth, ancestors);
      SerializeAll(heap, children[..k + 1], path, depth, ancestors) ==
        if r.Accepted? then Accepted(texts + [Entry(children[k].step, r.value)]) else Rejected(r.reason, r.path)
  {
    hide Serialize, Entry;
    assert children[..k + 1][..k] == children[..k];
  }

  /** The map the array branch looks its elements up in. */
  method ByKey(properties: seq<Property>) returns (values: map<Text, JsValue>)
    requires Distinct(properties)
    ensures forall key :: key in values <==> Find(properties, key).Some?
    ensures forall key :: key in values ==> values[key] == ValueOf(Find(properties, key).value.descriptor)
  {
    values := map[];
    var k := |properties|;
    while k > 0
      invariant 0 <= k <= |properties|
      invariant forall key :: key in values <==> Find(properties[k..], key).Some?
      invariant forall key :: key in values ==> values[key] == ValueOf(Find(properties[k..], key).value.descriptor)
    {
      k := k - 1;
      assert properties[k..] == [properties[k]] + properties[k + 1..];
      values := values[properties[k].key := ValueOf(properties[k].descriptor)];
    }
    assert properties[0..] == properties;
  }

  method CheckProperties(o: JsObject, path: Path) returns (r: Result<seq<Property>>)
    ensures r == OwnDataProperties(o, path)
  {
    if o.symbolKeyed {
      return Rejected(SymbolKey, path);
    }
    var keys := Sorted(o.properties);
    var properties := [];
    for k := 0 to |keys|
      invariant properties == keys[..k]
      invariant FirstDefect(o.kind, keys) == FirstDefect(o.kind, keys[k..])
    {
      var p := keys[k];
      assert keys[k..][1..] == keys[k + 1..];
      var childPath := path + [StepOf(o.kind, p.key)];
      var ok := AssertIjsonString(p.key);
      ScansExactlyIjson(p.key);
      if !ok {
        return Rejected(NonIjsonString, childPath);
      }
      if p.descriptor.Accessor? && p.descriptor.defined {
        return Rejected(AccessorOwnProperty, childPath);
      }
      if !p.descriptor.enumerable {
        return Rejected(NonEnumerableOwnProperty, childPath);
      }
      if p.key == PROTO_KEY {
        return Rejected(ForbiddenKey, childPath);
      }
      if o.kind.ArrayKind? && !IsArrayIndex(p.key, o.kind.length) {
        return Rejected(ArrayExtraProperty, childPath);
      }
      properties := properties + [p];
    }
    assert keys[..|keys|] == keys;
    return Accepted(properties);
  }

  lemma {:induction false} HoleFound(properties: seq<Property>, index: nat, length: nat)
    requires index < length && FirstHole(properties, index).None? && !Filled(properties, index)
    ensures FirstHole(properties, length) == Some(index)
    decreases length
  {
    hide Filled;
    if index < length - 1 {
      HoleFound(properties, index, length - 1);
    }
  }

  method CheckHoles(o: JsObject, path: Path) returns (hole: Option<nat>)
    requires o.kind.ArrayKind?
    ensures hole == FirstHole(o.properties, o.kind.length)
  {
    for index := 0 to o.kind.length
      invariant FirstHole(o.properties, index).None?
    {
      if Find(o.properties, Decimal(index)).None? {
        HoleFound(o.properties, index, o.kind.length);
        return Some(index);
      }
    }
    return None;
  }

  lemma ArrayChild(kind: Kind, properties: seq<Property>, index: nat)
    requires kind.ArrayKind? && index < kind.length
    ensures
      var found := Find(properties, Decimal(index));
      ChildrenOf(kind, properties)[index] ==
        Child(Index(index), if found.Some? then ValueOf(found.value.descriptor) else Undefined)
  {
    assert ChildrenOf(kind, properties)[index] == ChildAt(properties, index);
  }

  lemma PlainChild(kind: Kind, properties: seq<Property>, k: nat)
    requires kind.PlainKind? && k < |properties|
    ensures ChildrenOf(kind, properties)[k] == Child(Key(properties[k].key), ValueOf(properties[k].descriptor))
  {
  }

  lemma CheckedInOrder(o: JsObject, path: Path)
    requires Distinct(o.properties) && OwnDataProperties(o, path).Accepted?
    ensures Distinct(OwnDataProperties(o, path).value)
  {
    SortedInOrder(o.properties);
  }

  lemma ContainerResult(heap: Heap, id: nat, path: Path, depth: nat, ancestors: set<nat>)
    requires depth <= MAX_DEPTH && id !in ancestors
    ensures
      var inspected := Inspect(heap(id), path);
      CanonicalModel.Serialize(heap, Reference(id), path, depth, ancestors) ==
        if inspected.Rejected? then Rejected(inspected.reason, inspected.path)
        else
          var all := SerializeAll(heap, inspected.value, path, depth + 1, ancestors + {id});
          if all.Rejected? then Rejected(all.reason, all.path) else Accepted(Wrap(heap(id).kind, all.value))
  {
    hide Inspect, SerializeAll, Wrap;
  }

  class Serializer {
    var ancestors: set<nat>

    constructor ()
      ensures ancestors == {}
    {
      ancestors := {};
    }

    /** The set of ancestors is restored on every exit, accepted or rejected. */
    method Serialize(heap: Heap, value: JsValue, path: Path, depth: nat) returns (r: Result<Text>)
      requires Proper(heap) && depth <= MAX_DEPTH + 1
      modifies this
      ensures r == CanonicalModel.Serialize(heap, value, path, depth, old(ancestors))
      ensures ancestors == old(ancestors)
      decreases MAX_DEPTH + 1 - depth, 0
    {
      if depth > MAX_DEPTH {
        return Rejected(MaxDepthExceeded, path);
      }
      match value
      case NullValue => return Accepted(NULL_WORD);
      case Undefined => return Rejected(UndefinedRejected, path);
      case FunctionValue => return Rejected(FunctionRejected, path);
      case SymbolValue => return Rejected(SymbolRejected, path);
      case BigIntValue => return Rejected(BigIntRejected, path);
      case BooleanValue(truth) => return Accepted(if truth then TRUE_WORD else FALSE_WORD);
      case StringValue(text) =>
        var ok := AssertIjsonString(text);
        ScansExactlyIjson(text);
        return if ok then Accepted(Quote(text)) else Rejected(NonIjsonString, path);
      case NonFinite => return Rejected(NonFiniteNumber, path);
      case NumberValue(numeral) => return Accepted(numeral);
      case Reference(id) =>
        if id in ancestors {
          return Rejected(CyclicReference, path);
        }
        if heap(id).kind.ExoticKind? {
          return Rejected(NonPlainObject, path);
        } else if heap(id).kind.ArrayKind? {
          r := SerializeArray(heap, id, path, depth);
        } else {
          r := SerializePlain(heap, id, path, depth);
        }
    }

    method SerializeArray(heap: Heap, id: nat, path: Path, depth: nat) returns (r: Result<Text>)
      requires Proper(heap) && depth <= MAX_DEPTH && id !in ancestors && heap(id).kind.ArrayKind?
      modifies this
      ensures r == CanonicalModel.Serialize(heap, Reference(id), path, depth, old(ancestors))
      ensures ancestors == old(ancestors)
      decreases MAX_DEPTH - depth, 2
    {
      hide OwnDataProperties, Find, Sorted, Wrap, SerializeAll, CanonicalModel.Serialize, ChildrenOf;
      var o := heap(id);
      ContainerResult(heap, id, path, depth, ancestors);
      var hole := CheckHoles(o, path);
      if hole.Some? {
        return Rejected(ArrayHole, path + [Index(hole.value)]);
      }
      var properties := CheckProperties(o, path);
      if properties.Rejected? {
        return Rejected(properties.reason, properties.path);
      }
      CheckedInOrder(o, path);
      var byIndex := ByKey(properties.value);
      ghost var children := ChildrenOf(o.kind, properties.value);
      ancestors := ancestors + {id};
      var encoded: seq<Text> := [];
      var index := 0;
      assert children[..0] == [];
      NoChildren(heap, path, depth + 1, ancestors);
      while index < o.kind.length
        invariant 0 <= index <= o.kind.length && ancestors == old(ancestors) + {id}
        invariant SerializeAll(heap, children[..index], path, depth + 1, ancestors) == Accepted(encoded)
      {
        var child := if Decimal(index) in byIndex then byIndex[Decimal(index)] else Undefined;
        ArrayChild(o.kind, properties.value, index);
        OneMore(heap, children, index, path, depth + 1, ancestors);
        var text := Serialize(heap, child, path + [Index(index)], depth + 1);
        if text.Rejected? {
          RejectionStands(heap, children, index + 1, path, depth + 1, ancestors);
          ancestors := ancestors - {id};
          return Rejected(text.reason, text.path);
        }
        encoded := encoded + [text.value];
        index := index + 1;
      }
      assert children[..index] == children;
      ancestors := ancestors - {id};
      return Accepted(Wrap(o.kind, encoded));
    }

    method SerializePlain(heap: Heap, id: nat, path: Path, depth: nat) returns (r: Result<Text>)
      requires Proper(heap) && depth <= MAX_DEPTH && id !in ancestors && heap(id).kind.PlainKind?
      modifies this
      ensures r == CanonicalModel.Serialize(heap, Reference(id), path, depth, old(ancestors))
      ensures ancestors == old(ancestors)
      decreases MAX_DEPTH - depth, 2
    {
      hide OwnDataProperties, Find, Sorted, Wrap, SerializeAll, CanonicalModel.Serialize, ChildrenOf;
      var o := heap(id);
      ContainerResult(heap, id, path, depth, ancestors);
      var properties := CheckProperties(o, path);
      if properties.Rejected? {
        return Rejected(properties.reason, properties.path);
      }
      ghost var children := ChildrenOf(o.kind, properties.value);
      ancestors := ancestors + {id};
      var encoded: seq<Text> := [];
      var k := 0;
      assert children[..0] == [];
      NoChildren(heap, path, depth + 1, ancestors);
      while k < |properties.value|
        invariant 0 <= k <= |properties.value| && ancestors == old(ancestors) + {id}
        invariant SerializeAll(heap, children[..k], path, depth + 1, ancestors) == Accepted(encoded)
      {
        var key, child := properties.value[k].key, ValueOf(properties.value[k].descriptor);
        PlainChild(o.kind, properties.value, k);
        OneMore(heap, children, k, path, depth + 1, ancestors);
        var text := Serialize(heap, child, path + [Key(key)], depth + 1);
        if text.Rejected? {
          RejectionStands(heap, children, k + 1, path, depth + 1, ancestors);
          ancestors := ancestors - {id};
          return Rejected(text.reason, text.path);
        }
        encoded := encoded + [Quote(key) + [COLON] + text.value];
        k := k + 1;
      }
      assert children[..k] == children;
      ancestors := ancestors - {id};
      return Accepted(Wrap(o.kind, encoded));
    }
  }

  method CanonicalText(heap: Heap, value: JsValue) returns (r: Result<Text>)
    requires Proper(heap)
    ensures r == Canonical(heap, value)
  {
    var serializer := new Serializer();
    r := serializer.Serialize(heap, value, [], 0);
  }
}
