/**
 From texts to the serializer: the objects that a parser builds for a JSON value, what the canonical
 serializer makes of them, and which texts it can emit at all.
 */
module ParsedValues {

  import opened Options
  import opened UnicodeText
  import opened JsonText
  import opened JsHeap
  import opened CanonicalModel
  import opened CanonicalTheory
  import WireCodec
  import WireRecords

  /** An own enumerable data property, as a parser makes them. */
  predicate IsOwn(p: Property) {
    p.descriptor.Data? && p.descriptor.enumerable
  }

  /** The value is what a parser builds for v: fresh plain objects and arrays all the way down. */
  ghost predicate Stands(heap: Heap, value: JsValue, v: Json)
    decreases v
  {
    match v
    case Null => value == NullValue
    case Boolean(truth) => value == BooleanValue(truth)
    case Number(numeral) => value == NumberValue(numeral)
    case String(text) => value == StringValue(text)
    case Array(items) =>
      value.Reference? && IsArrayOf(heap(value.id), |items|) &&
      forall i :: 0 <= i < |items| ==> Stands(heap, ValueOf(heap(value.id).properties[i].descriptor), items[i])
    case Object(members) =>
      value.Reference? && IsPlainOf(heap(value.id), members) &&
      forall i :: 0 <= i < |members| ==>
        Stands(heap, ValueOf(heap(value.id).properties[i].descriptor), members[i].value)
  }

  predicate IsArrayOf(o: JsObject, length: nat) {
    o.kind == ArrayKind(length) && !o.symbolKeyed && |o.properties| == length &&
    forall i :: 0 <= i < length ==> o.properties[i].key == Decimal(i) && IsOwn(o.properties[i])
  }

  predicate IsPlainOf(o: JsObject, members: seq<Member>) {
    o.kind == PlainKind && !o.symbolKeyed && |o.properties| == |members| &&
    forall i :: 0 <= i < |members| ==> o.properties[i].key == members[i].key && IsOwn(o.properties[i])
  }

  // ---- Arrays and objects of a parser -----------------------------------------------------------------

  lemma DecimalIsPlain(n: nat)
    ensures Scans(Decimal(n)) && Decimal(n) != PROTO_KEY
  {
    AsciiScans(Decimal(n));
  }

  lemma DecimalsDiffer(i: nat, j: nat)
    requires i != j
    ensures Decimal(i) != Decimal(j)
  {
    DecimalReadsBack(i);
    DecimalReadsBack(j);
  }

  lemma ArrayIsAdmissible(o: JsObject, length: nat)
    requires IsArrayOf(o, length)
    ensures Admissible(o) && Distinct(o.properties)
  {
    hide Scans, Decimal, IsArrayIndex;
    forall i, j | 0 <= i < j < length ensures o.properties[i].key != o.properties[j].key {
      DecimalsDiffer(i, j);
    }
    forall p | p in o.properties ensures AdmissibleProperty(o.kind, p) {
      var i :| 0 <= i < length && o.properties[i] == p;
      DecimalIsPlain(i);
      ArrayIndexExactly(Decimal(i), length);
    }
    forall i: nat | i < length ensures Filled(o.properties, i) {
      assert o.properties[i] in o.properties;
    }
  }

  lemma ArrayChildren(o: JsObject, length: nat)
    requires IsArrayOf(o, length)
    ensures
      var children := ChildrenOf(o.kind, Sorted(o.properties));
      |children| == length &&
      forall i :: 0 <= i < length ==> children[i] == Child(Index(i), ValueOf(o.properties[i].descriptor))
  {
    hide Decimal, Sorted;
    ArrayIsAdmissible(o, length);
    SortedInOrder(o.properties);
    var sorted := Sorted(o.properties);
    forall i | 0 <= i < length ensures ChildAt(sorted, i) == Child(Index(i), ValueOf(o.properties[i].descriptor)) {
      assert o.properties[i] in sorted;
      FindOwn(sorted, o.properties[i]);
    }
  }

  /** Scanned keys in order, as the members of a normal object have them. */
  predicate Keyed(members: seq<Member>) {
    WireCodec.InKeyOrder(members) && forall i :: 0 <= i < |members| ==> Scans(members[i].key)
  }

  predicate NoForbiddenKey(members: seq<Member>) {
    forall i :: 0 <= i < |members| ==> members[i].key != PROTO_KEY
  }

  lemma PlainIsAdmissible(o: JsObject, members: seq<Member>)
    requires IsPlainOf(o, members) && Keyed(members)
    ensures Admissible(o) <==> NoForbiddenKey(members)
  {
    hide Scans;
    forall i | 0 <= i < |members|
      ensures AdmissibleProperty(o.kind, o.properties[i]) <==> members[i].key != PROTO_KEY
    {
    }
    assert forall i :: 0 <= i < |members| ==> o.properties[i] in o.properties;
  }

  lemma PlainIsSorted(o: JsObject, members: seq<Member>)
    requires IsPlainOf(o, members) && Keyed(members)
    ensures Distinct(o.properties) && Sorted(o.properties) == o.properties
  {
    hide Scans, Less, Sorted;
    assert InOrder(o.properties);
    InOrderDistinct(o.properties);
    SortedInOrder(o.properties);
    OneOrder(Sorted(o.properties), o.properties);
  }

  // ---- Their trees ----------------------------------------------------------------------------------------

  /** The tree of v when it fits. */
  predicate IsTreeOf(heap: Heap, value: JsValue, v: Json, budget: nat) {
    Tree(heap, value, budget) == if WireCodec.Fits(v, budget) then Some(v) else None
  }

  lemma {:induction false} TreesTogether(heap: Heap, children: seq<Child>, items: seq<Json>, budget: nat)
    requires |children| == |items|
    requires forall i :: 0 <= i < |items| ==> IsTreeOf(heap, children[i].value, items[i], budget)
    ensures Trees(heap, children, budget) ==
      if forall i :: 0 <= i < |items| ==> WireCodec.Fits(items[i], budget) then Some(items) else None
    decreases |items|
  {
    hide Tree, WireCodec.Fits;
    if items != [] {
      var n := |items| - 1;
      TreesTogether(heap, children[..n], items[..n], budget);
      assert items == items[..n] + [items[n]];
      assert IsTreeOf(heap, children[n].value, items[n], budget);
    }
  }

  lemma ContainerIs(heap: Heap, id: nat, budget: nat)
    ensures
      var o := heap(id);
      var children := ChildrenOf(o.kind, Sorted(o.properties));
      Tree(heap, Reference(id), budget) ==
        if !Admissible(o) then None
        else if children == [] then Some(Assemble(o.kind, [], []))
        else if budget == 0 then None
        else
          match Trees(heap, children, budget - 1)
          case None => None
          case Some(trees) => Some(Assemble(o.kind, children, trees))
  {
    hide Admissible, Sorted, Trees;
  }

  lemma ArrayTree(heap: Heap, id: nat, items: seq<Json>, budget: nat)
    requires IsArrayOf(heap(id), |items|)
    requires budget > 0 ==> forall i :: 0 <= i < |items| ==>
      IsTreeOf(heap, ValueOf(heap(id).properties[i].descriptor), items[i], budget - 1)
    ensures IsTreeOf(heap, Reference(id), Array(items), budget)
  {
    hide Tree, Trees, Admissible, Sorted, ChildrenOf, Assemble, IsArrayOf;
    var o := heap(id);
    ContainerIs(heap, id, budget);
    ArrayIsAdmissible(o, |items|);
    ArrayChildren(o, |items|);
    var children := ChildrenOf(o.kind, Sorted(o.properties));
    ArrayAssembles(o, children, items);
    if items != [] && budget > 0 {
      TreesTogether(heap, children, items, budget - 1);
    }
  }

  lemma ObjectTree(heap: Heap, id: nat, members: seq<Member>, budget: nat)
    requires IsPlainOf(heap(id), members) && Keyed(members)
    requires budget > 0 ==> forall i :: 0 <= i < |members| ==>
      IsTreeOf(heap, ValueOf(heap(id).properties[i].descriptor), members[i].value, budget - 1)
    ensures IsTreeOf(heap, Reference(id), Object(members), budget)
  {
    hide Tree, Trees, Admissible, Sorted, ChildrenOf, Assemble, Keyed, IsTreeOf;
    var o := heap(id);
    var children := ChildrenOf(o.kind, o.properties);
    var values := seq(|members|, i requires 0 <= i < |members| => members[i].value);
    ContainerIs(heap, id, budget);
    PlainIsAdmissible(o, members);
    PlainIsSorted(o, members);
    PlainChildren(o.kind, o.properties);
    ObjectAssembles(o, children, members, values);
    if members != [] && budget > 0 {
      TreesTogether(heap, children, values, budget - 1);
    }
    ObjectFits(members, values, budget);
    assert Tree(heap, Reference(id), budget) ==
           if WireCodec.Fits(Object(members), budget) then Some(Object(members)) else None;
    IsTreeWhen(heap, Reference(id), Object(members), budget);
  }

  lemma IsTreeWhen(heap: Heap, value: JsValue, v: Json, budget: nat)
    requires Tree(heap, value, budget) == if WireCodec.Fits(v, budget) then Some(v) else None
    ensures IsTreeOf(heap, value, v, budget)
  {
  }

  lemma ObjectFits(members: seq<Member>, values: seq<Json>, budget: nat)
    requires |members| == |values| && forall i :: 0 <= i < |members| ==> values[i] == members[i].value
    ensures WireCodec.Fits(Object(members), budget) <==>
      members == [] ||
      (budget > 0 && NoForbiddenKey(members) &&
       forall i :: 0 <= i < |values| ==> WireCodec.Fits(values[i], budget - 1))
  {
  }

  /** A parsed value stands for the tree it was parsed from, when the serializer's two limits allow it. */
  lemma {:induction false} TreeOfParsed(heap: Heap, value: JsValue, v: Json, numbers: WireCodec.Numbers, budget: nat)
    requires Stands(heap, value, v) && WireCodec.IsNormal(v, numbers)
    ensures IsTreeOf(heap, value, v, budget)
    decreases v
  {
    hide IsTreeOf, Decimal;
    match v {
      case Array(items) =>
        if budget > 0 {
          forall i | 0 <= i < |items|
            ensures IsTreeOf(heap, ValueOf(heap(value.id).properties[i].descriptor), items[i], budget - 1)
          {
            TreeOfParsed(heap, ValueOf(heap(value.id).properties[i].descriptor), items[i], numbers, budget - 1);
          }
        }
        ArrayTree(heap, value.id, items, budget);
      case Object(members) =>
        if budget > 0 {
          forall i | 0 <= i < |members|
            ensures IsTreeOf(heap, ValueOf(heap(value.id).properties[i].descriptor), members[i].value, budget - 1)
          {
            TreeOfParsed(heap, ValueOf(heap(value.id).properties[i].descriptor), members[i].value, numbers, budget - 1);
          }
        }
        ObjectTree(heap, value.id, members, budget);
      case _ => ScalarTree(heap, value, v, numbers, budget);
    }
  }

  lemma ScalarTree(heap: Heap, value: JsValue, v: Json, numbers: WireCodec.Numbers, budget: nat)
    requires Stands(heap, value, v) && WireCodec.IsNormal(v, numbers) && !v.Array? && !v.Object?
    ensures IsTreeOf(heap, value, v, budget)
  {
    hide Scans, IsNumeral;
  }

  lemma ArrayAssembles(o: JsObject, children: seq<Child>, items: seq<Json>)
    requires IsArrayOf(o, |items|) && |children| == |items|
    ensures Assemble(o.kind, children, items) == Array(items) && Assemble(o.kind, [], []) == Array([])
  {
  }

  lemma ObjectAssembles(o: JsObject, children: seq<Child>, members: seq<Member>, values: seq<Json>)
    requires o.kind == PlainKind && |children| == |members| == |values|
    requires forall i :: 0 <= i < |members| ==> children[i].step == Key(members[i].key) && values[i] == members[i].value
    ensures Assemble(o.kind, children, values) == Object(members) && Assemble(o.kind, [], []) == Object([])
  {
    var all := Assemble(o.kind, children, values).members;
    assert forall i :: 0 <= i < |members| ==> all[i] == members[i];
    assert all == members;
  }

  /**
   The serializer accepts what a parser built exactly when the codecs' guard lets the value through, and
   its text is then the value's.
   */
  lemma SerializesExactly(heap: Heap, value: JsValue, v: Json, numbers: WireCodec.Numbers)
    requires Stands(heap, value, v) && WireCodec.IsNormal(v, numbers)
    ensures Canonical(heap, value).Accepted? <==> WireCodec.Serializable(v)
    ensures WireCodec.Serializable(v) ==> Canonical(heap, value) == Accepted(Print(v))
  {
    hide Stands, Tree, WireCodec.IsNormal, WireCodec.Fits, Canonical, Print;
    AcceptsExactly(heap, value);
    TreeOfParsed(heap, value, v, numbers, MAX_DEPTH);
  }

  // ---- Building the objects --------------------------------------------------------------------------------

  /** A value, and the objects below it, numbered from a base on. */
  datatype Built = Built(value: JsValue, objects: seq<JsObject>)

  datatype BuiltAll = BuiltAll(values: seq<JsValue>, objects: seq<JsObject>)

  function Build(v: Json, base: nat): Built
    decreases v
  {
    match v
    case Null => Built(NullValue, [])
    case Boolean(truth) => Built(BooleanValue(truth), [])
    case Number(numeral) => Built(NumberValue(numeral), [])
    case String(text) => Built(StringValue(text), [])
    case Array(items) =>
      var below := BuildItems(items, base + 1);
      Built(Reference(base), [ArrayObject(below.values)] + below.objects)
    case Object(members) =>
      var below := BuildMembers(members, base + 1);
      Built(Reference(base), [PlainObject(members, below.values)] + below.objects)
  }

  function ArrayObject(values: seq<JsValue>): JsObject {
    JsObject(ArrayKind(|values|),
             seq(|values|, i requires 0 <= i < |values| => Property(Decimal(i), Data(values[i], true))), false)
  }

  function PlainObject(members: seq<Member>, values: seq<JsValue>): JsObject
    requires |values| == |members|
  {
    JsObject(PlainKind,
             seq(|values|, i requires 0 <= i < |values| => Property(members[i].key, Data(values[i], true))), false)
  }

  function BuildItems(items: seq<Json>, base: nat): (r: BuiltAll)
    ensures |r.values| == |items|
    decreases items
  {
    if items == [] then BuiltAll([], [])
    else
      var first := Build(items[0], base);
      var rest := BuildItems(items[1..], base + |first.objects|);
      BuiltAll([first.value] + rest.values, first.objects + rest.objects)
  }

  function BuildMembers(members: seq<Member>, base: nat): (r: BuiltAll)
    ensures |r.values| == |members|
    decreases members
  {
    if members == [] then BuiltAll([], [])
    else
      var first := Build(members[0].value, base);
      var rest := BuildMembers(members[1..], base + |first.objects|);
      BuiltAll([first.value] + rest.values, first.objects + rest.objects)
  }

  ghost predicate Holding(heap: Heap, base: nat, objects: seq<JsObject>) {
    forall k :: 0 <= k < |objects| ==> heap(base + k) == objects[k]
  }

  lemma HoldingParts(heap: Heap, base: nat, first: seq<JsObject>, rest: seq<JsObject>)
    requires Holding(heap, base, first + rest)
    ensures Holding(heap, base, first) && Holding(heap, base + |first|, rest)
  {
    forall k | 0 <= k < |first| ensures heap(base + k) == first[k] {
      assert (first + rest)[k] == first[k];
    }
    forall k | 0 <= k < |rest| ensures heap(base + |first| + k) == rest[k] {
      assert heap(base + (|first| + k)) == (first + rest)[|first| + k];
    }
  }

  lemma HoldingFirst(heap: Heap, base: nat, first: JsObject, rest: seq<JsObject>)
    requires Holding(heap, base, [first] + rest)
    ensures heap(base) == first
  {
    assert heap(base + 0) == ([first] + rest)[0];
  }

  lemma {:induction false} BuiltStands(heap: Heap, v: Json, base: nat)
    requires Holding(heap, base, Build(v, base).objects)
    ensures Stands(heap, Build(v, base).value, v)
    decreases v
  {
    hide Decimal;
    match v {
      case Array(items) =>
        var below := BuildItems(items, base + 1);
        HoldingParts(heap, base, [ArrayObject(below.values)], below.objects);
        HoldingFirst(heap, base, ArrayObject(below.values), below.objects);
        ItemsStand(heap, items, base + 1);
      case Object(members) =>
        var below := BuildMembers(members, base + 1);
        HoldingParts(heap, base, [PlainObject(members, below.values)], below.objects);
        HoldingFirst(heap, base, PlainObject(members, below.values), below.objects);
        MembersStand(heap, members, base + 1);
      case _ =>
    }
  }

  lemma {:induction false} ItemsStand(heap: Heap, items: seq<Json>, base: nat)
    requires Holding(heap, base, BuildItems(items, base).objects)
    ensures forall i :: 0 <= i < |items| ==> Stands(heap, BuildItems(items, base).values[i], items[i])
    decreases items
  {
    hide Stands, Build;
    if items != [] {
      var first := Build(items[0], base);
      var rest := BuildItems(items[1..], base + |first.objects|);
      HoldingParts(heap, base, first.objects, rest.objects);
      BuiltStands(heap, items[0], base);
      ItemsStand(heap, items[1..], base + |first.objects|);
    }
  }

  lemma {:induction false} MembersStand(heap: Heap, members: seq<Member>, base: nat)
    requires Holding(heap, base, BuildMembers(members, base).objects)
    ensures forall i :: 0 <= i < |members| ==> Stands(heap, BuildMembers(members, base).values[i], members[i].value)
    decreases members
  {
    hide Stands, Build;
    if members != [] {
      var first := Build(members[0].value, base);
      var rest := BuildMembers(members[1..], base + |first.objects|);
      HoldingParts(heap, base, first.objects, rest.objects);
      BuiltStands(heap, members[0].value, base);
      MembersStand(heap, members[1..], base + |first.objects|);
    }
  }

  /** An object that the platform could hold: one property a key, numbers as they print. */
  ghost predicate IsSound(o: JsObject, numbers: WireCodec.Numbers) {
    Distinct(o.properties) && forall p :: p in o.properties ==> Printed(ValueOf(p.descriptor), numbers)
  }

  predicate Printed(value: JsValue, numbers: WireCodec.Numbers) {
    value.NumberValue? ==> IsNumeral(value.numeral) && numbers(value.numeral) == Some(value.numeral)
  }

  /** No object has two properties of one key, and every number is held as it prints. */
  ghost predicate Platform(heap: Heap, numbers: WireCodec.Numbers) {
    forall id: nat :: IsSound(heap(id), numbers)
  }

  lemma {:induction false} BuiltIsSound(v: Json, base: nat, numbers: WireCodec.Numbers)
    requires WireCodec.IsNormal(v, numbers)
    ensures Printed(Build(v, base).value, numbers)
    ensures forall o :: o in Build(v, base).objects ==> IsSound(o, numbers)
    decreases v
  {
    hide IsSound, Scans, IsNumeral, Decimal;
    match v {
      case Array(items) =>
        ItemsAreSound(items, base + 1, numbers);
        ArrayIsSound(BuildItems(items, base + 1).values, numbers);
      case Object(members) =>
        MembersAreSound(members, base + 1, numbers);
        PlainIsSound(members, BuildMembers(members, base + 1).values, numbers);
      case _ =>
    }
  }

  lemma {:induction false} ItemsAreSound(items: seq<Json>, base: nat, numbers: WireCodec.Numbers)
    requires forall i :: 0 <= i < |items| ==> WireCodec.IsNormal(items[i], numbers)
    ensures forall i :: 0 <= i < |items| ==> Printed(BuildItems(items, base).values[i], numbers)
    ensures forall o :: o in BuildItems(items, base).objects ==> IsSound(o, numbers)
    decreases items
  {
    hide IsSound, Build, Printed, WireCodec.IsNormal;
    if items != [] {
      BuiltIsSound(items[0], base, numbers);
      ItemsAreSound(items[1..], base + |Build(items[0], base).objects|, numbers);
    }
  }

  lemma {:induction false} MembersAreSound(members: seq<Member>, base: nat, numbers: WireCodec.Numbers)
    requires forall i :: 0 <= i < |members| ==> WireCodec.IsNormal(members[i].value, numbers)
    ensures forall i :: 0 <= i < |members| ==> Printed(BuildMembers(members, base).values[i], numbers)
    ensures forall o :: o in BuildMembers(members, base).objects ==> IsSound(o, numbers)
    decreases members
  {
    hide IsSound, Build, Printed, WireCodec.IsNormal;
    if members != [] {
      BuiltIsSound(members[0].value, base, numbers);
      MembersAreSound(members[1..], base + |Build(members[0].value, base).objects|, numbers);
    }
  }

  lemma ArrayIsSound(values: seq<JsValue>, numbers: WireCodec.Numbers)
    requires forall i :: 0 <= i < |values| ==> Printed(values[i], numbers)
    ensures IsSound(ArrayObject(values), numbers)
  {
    hide Decimal, Printed;
    forall i, j | 0 <= i < j < |values| ensures Decimal(i) != Decimal(j) {
      DecimalsDiffer(i, j);
    }
  }

  lemma PlainIsSound(members: seq<Member>, values: seq<JsValue>, numbers: WireCodec.Numbers)
    requires |values| == |members| && WireCodec.InKeyOrder(members)
    requires forall i :: 0 <= i < |values| ==> Printed(values[i], numbers)
    ensures IsSound(PlainObject(members, values), numbers)
  {
    hide Less, Printed;
    var o := PlainObject(members, values);
    assert InOrder(o.properties);
    InOrderDistinct(o.properties);
  }

  /** Every normal value is held by some heap. */
  lemma ParsedSomewhere(v: Json, numbers: WireCodec.Numbers) returns (heap: Heap, value: JsValue)
    requires WireCodec.IsNormal(v, numbers)
    ensures Platform(heap, numbers) && Printed(value, numbers) && Stands(heap, value, v)
  {
    hide Build, Stands, IsSound, WireCodec.IsNormal, Printed;
    var objects := Build(v, 0).objects;
    heap := (id: nat) => if id < |objects| then objects[id] else JsObject(PlainKind, [], false);
    value := Build(v, 0).value;
    assert Holding(heap, 0, objects);
    BuiltStands(heap, v, 0);
    BuiltIsSound(v, 0, numbers);
    assert IsSound(JsObject(PlainKind, [], false), numbers) by { EmptyIsSound(numbers); }
    forall id: nat ensures IsSound(heap(id), numbers) {
      if id < |objects| {
        assert objects[id] in objects;
      }
    }
  }

  lemma EmptyIsSound(numbers: WireCodec.Numbers)
    ensures IsSound(JsObject(PlainKind, [], false), numbers)
  {
  }

  // ---- Which texts the serializer emits -----------------------------------------------------------------

  /** What an accepted value stands for is normal and within both limits. */
  lemma {:induction false} TreeIsNormal(heap: Heap, value: JsValue, numbers: WireCodec.Numbers, budget: nat)
    requires Platform(heap, numbers) && Printed(value, numbers) && Tree(heap, value, budget).Some?
    ensures
      var v := Tree(heap, value, budget).value;
      WireCodec.IsNormal(v, numbers) && WireCodec.Fits(v, budget)
    decreases budget
  {
    hide Tree, ContainerTree, Trees, Admissible, Sorted, ChildrenOf, Assemble, Platform, Scans, IsNumeral;
    if value.Reference? {
      var o := heap(value.id);
      var sorted := Sorted(o.properties);
      var children := ChildrenOf(o.kind, sorted);
      ContainerIs(heap, value.id, budget);
      SoundAt(heap, value.id, numbers);
      if children == [] {
        AssembledIsNormal(o, [], numbers, budget);
      } else {
        var trees := Trees(heap, children, budget - 1).value;
        TreesAreTrees(heap, children, budget - 1);
        forall i | 0 <= i < |trees|
          ensures WireCodec.IsNormal(trees[i], numbers) && WireCodec.Fits(trees[i], budget - 1)
        {
          ChildIsPrinted(heap, value.id, i, numbers);
          TreeIsNormal(heap, children[i].value, numbers, budget - 1);
        }
        AssembledIsNormal(o, trees, numbers, budget);
      }
    } else {
      ScalarIsNormal(heap, value, numbers, budget);
    }
  }

  lemma SoundAt(heap: Heap, id: nat, numbers: WireCodec.Numbers)
    requires Platform(heap, numbers)
    ensures Distinct(heap(id).properties) && IsSound(heap(id), numbers)
  {
  }

  lemma ScalarIsNormal(heap: Heap, value: JsValue, numbers: WireCodec.Numbers, budget: nat)
    requires Printed(value, numbers) && Tree(heap, value, budget).Some? && !value.Reference?
    ensures
      var v := Tree(heap, value, budget).value;
      WireCodec.IsNormal(v, numbers) && WireCodec.Fits(v, budget)
  {
    hide Scans, IsNumeral;
  }

  lemma ChildIsPrinted(heap: Heap, id: nat, i: nat, numbers: WireCodec.Numbers)
    requires Platform(heap, numbers) && i < |ChildrenOf(heap(id).kind, Sorted(heap(id).properties))|
    ensures Printed(ChildrenOf(heap(id).kind, Sorted(heap(id).properties))[i].value, numbers)
  {
    hide IsNumeral, Sorted, Platform;
    var o := heap(id);
    SoundAt(heap, id, numbers);
    ChildIsHeld(heap, id, ChildrenOf(o.kind, Sorted(o.properties))[i]);
  }

  lemma AssembledIsNormal(o: JsObject, trees: seq<Json>, numbers: WireCodec.Numbers, budget: nat)
    requires Admissible(o) && Distinct(o.properties)
    requires |trees| == |ChildrenOf(o.kind, Sorted(o.properties))| && (trees != [] ==> budget > 0)
    requires forall i :: 0 <= i < |trees| ==>
      WireCodec.IsNormal(trees[i], numbers) && WireCodec.Fits(trees[i], budget - 1)
    ensures
      var v := Assemble(o.kind, ChildrenOf(o.kind, Sorted(o.properties)), trees);
      WireCodec.IsNormal(v, numbers) && WireCodec.Fits(v, budget)
  {
    hide Scans, Sorted, Less, IsNumeral;
    var sorted := Sorted(o.properties);
    var children := ChildrenOf(o.kind, sorted);
    SortedInOrder(o.properties);
    if !o.kind.ArrayKind? {
      PlainChildren(o.kind, sorted);
      var members := Assemble(o.kind, children, trees).members;
      forall i | 0 <= i < |members|
        ensures members[i] == Member(sorted[i].key, trees[i]) && Scans(members[i].key) && members[i].key != PROTO_KEY
      {
        assert sorted[i] in o.properties;
      }
      assert WireCodec.InKeyOrder(members);
    }
  }

  /** Some value that the platform could hold is serialized to this text. */
  ghost predicate IsEmitted(s: Text, numbers: WireCodec.Numbers) {
    exists heap: Heap, value :: Emits(heap, value, s, numbers)
  }

  ghost predicate Emits(heap: Heap, value: JsValue, s: Text, numbers: WireCodec.Numbers) {
    Platform(heap, numbers) && Printed(value, numbers) && Canonical(heap, value) == Accepted(s)
  }

  /** The serializer can emit exactly the texts that the codecs' scheme accepts when it tests nothing. */
  lemma EmittedExactly(s: Text, numbers: WireCodec.Numbers)
    requires WireCodec.PrintsCanonically(numbers)
    ensures IsEmitted(s, numbers) <==> WireCodec.Decode(s, _ => true, numbers).Ok?
  {
    hide WireCodec.Decode, WireCodec.IsNormal, WireCodec.Fits, Stands, Tree, Canonical, Print, Platform, Printed;
    if IsEmitted(s, numbers) {
      var heap: Heap, value :| Emits(heap, value, s, numbers);
      AcceptsExactly(heap, value);
      TreeIsNormal(heap, value, numbers, MAX_DEPTH);
      WireCodec.DecodesExactly(s, Tree(heap, value, MAX_DEPTH).value, _ => true, numbers);
    }
    if WireCodec.Decode(s, _ => true, numbers).Ok? {
      var v := WireCodec.Decode(s, _ => true, numbers).value;
      WireCodec.DecodesExactly(s, v, _ => true, numbers);
      var heap, value := ParsedSomewhere(v, numbers);
      SerializesExactly(heap, value, v, numbers);
      assert Emits(heap, value, s, numbers);
    }
  }

  /** `abc` is in the string domain that is hashed, and no value is serialized to it. */
  lemma HashedAndNeverEmitted(numbers: WireCodec.Numbers)
    requires WireCodec.PrintsCanonically(numbers)
    ensures IsIjson([0x61, 0x62, 0x63]) && !IsEmitted([0x61, 0x62, 0x63], numbers)
  {
    var s: Text := [0x61, 0x62, 0x63];
    AsciiScans(s);
    ScansExactlyIjson(s);
    EmittedExactly(s, numbers);
    assert SkipSpace(s) == s && NumeralLength(s) == 0;
    assert Parse(s).None?;
  }

  // ---- A sweep report that is refused --------------------------------------------------------------------

  const FIXTURE_PREFIX: Text := Codes("fixture_prefix")
  const SCENARIO_ID: Text := Codes("scenario_id")
  const WRITTEN_KEYS: Text := Codes("written_keys")
  const COLLECTION: Text := Codes("collection")
  const CONTRACT: Text := Codes("contract_id")
  const SWEEP_ID: Text := Codes("sweep_id")

  /** The cleanup of one scenario, with any authority. */
  function CleanupWith(authority: Json): Json {
    Object([Member(WireRecords.AUTHORITY, authority), Member(FIXTURE_PREFIX, String(Codes("p"))),
            Member(SCENARIO_ID, String(Codes("s"))), Member(WRITTEN_KEYS, Array([]))])
  }

  /** A sweep report without cells and with that cleanup. */
  function ReportWith(authority: Json): Json {
    Object([Member(WireRecords.CELLS, Array([])), Member(WireRecords.CLEANUP, Array([CleanupWith(authority)])),
            Member(COLLECTION, String(Codes("c"))), Member(CONTRACT, String(WireRecords.CONTRACT_ID)),
            Member(SWEEP_ID, String(Codes("s")))])
  }

  lemma {:induction false} LessAt(a: Text, b: Text, k: nat)
    requires k < |a| && k < |b| && a[..k] == b[..k] && a[k] < b[k]
    ensures Less(a, b)
    decreases k
  {
    if k > 0 {
      assert a[0] == a[..k][0] == b[..k][0] == b[0];
      assert a[1..][..k - 1] == a[..k][1..] == b[..k][1..] == b[1..][..k - 1];
      LessAt(a[1..], b[1..], k - 1);
    }
  }

  lemma CleanupKeysInOrder(authority: Json)
    ensures WireCodec.InKeyOrder(CleanupWith(authority).members)
  {
    LessAt(WireRecords.AUTHORITY, FIXTURE_PREFIX, 0);
    LessAt(WireRecords.AUTHORITY, SCENARIO_ID, 0);
    LessAt(WireRecords.AUTHORITY, WRITTEN_KEYS, 0);
    LessAt(FIXTURE_PREFIX, SCENARIO_ID, 0);
    LessAt(FIXTURE_PREFIX, WRITTEN_KEYS, 0);
    LessAt(SCENARIO_ID, WRITTEN_KEYS, 0);
    hide Less, Codes;
  }

  lemma ReportKeysInOrder(authority: Json)
    ensures WireCodec.InKeyOrder(ReportWith(authority).members)
  {
    LessAt(WireRecords.CELLS, WireRecords.CLEANUP, 1);
    LessAt(WireRecords.CELLS, COLLECTION, 1);
    LessAt(WireRecords.CELLS, CONTRACT, 1);
    LessAt(WireRecords.CELLS, SWEEP_ID, 0);
    LessAt(WireRecords.CLEANUP, COLLECTION, 1);
    LessAt(WireRecords.CLEANUP, CONTRACT, 1);
    LessAt(WireRecords.CLEANUP, SWEEP_ID, 0);
    LessAt(COLLECTION, CONTRACT, 2);
    LessAt(COLLECTION, SWEEP_ID, 0);
    LessAt(CONTRACT, SWEEP_ID, 0);
    hide Less, Codes;
  }

  lemma CodesScan(s: string)
    requires forall i :: 0 <= i < |s| ==> s[i] as int < 0x80
    ensures Scans(Codes(s))
  {
    AsciiScans(Codes(s));
  }

  predicate Named(s: Text) {
    Scans(s) && !IsBlank(s)
  }

  lemma Letter(s: string)
    requires |s| == 1 && 0x61 <= s[0] as int < 0x7B
    ensures Named(Codes(s))
  {
    CodesScan(s);
    assert !IsWhiteSpace(Codes(s)[0]);
  }

  lemma ObjectIsNormal(members: seq<Member>, numbers: WireCodec.Numbers)
    requires Keyed(members) && forall i :: 0 <= i < |members| ==> WireCodec.IsNormal(members[i].value, numbers)
    ensures WireCodec.IsNormal(Object(members), numbers)
  {
    hide Scans, WireCodec.InKeyOrder;
  }

  lemma StringIsNormal(text: Text, numbers: WireCodec.Numbers)
    requires Scans(text)
    ensures WireCodec.IsNormal(String(text), numbers)
  {
    hide Scans;
  }

  lemma ArrayIsNormal(items: seq<Json>, numbers: WireCodec.Numbers)
    requires |items| <= 1 && (items != [] ==> WireCodec.IsNormal(items[0], numbers))
    ensures WireCodec.IsNormal(Array(items), numbers)
  {
  }

  lemma CleanupKeysScan(authority: Json)
    ensures forall i :: 0 <= i < 4 ==> Scans(CleanupWith(authority).members[i].key)
  {
    hide Scans, Codes;
    CodesScan("cleanup_authority");
    CodesScan("fixture_prefix");
    CodesScan("scenario_id");
    CodesScan("written_keys");
  }

  lemma CleanupIsNormal(authority: Json, numbers: WireCodec.Numbers)
    requires WireCodec.IsNormal(authority, numbers) && Scans(Codes("p")) && Scans(Codes("s"))
    ensures WireCodec.IsNormal(CleanupWith(authority), numbers)
  {
    hide Scans, Codes, WireCodec.InKeyOrder, WireCodec.IsNormal;
    var members := CleanupWith(authority).members;
    CleanupKeysInOrder(authority);
    CleanupKeysScan(authority);
    StringIsNormal(Codes("p"), numbers);
    StringIsNormal(Codes("s"), numbers);
    ArrayIsNormal([], numbers);
    ObjectIsNormal(members, numbers);
  }

  lemma CleanupFields(authority: Json)
    ensures
      var v := CleanupWith(authority);
      && WireRecords.Field(v, WireRecords.AUTHORITY) == authority
      && WireRecords.Field(v, FIXTURE_PREFIX) == String(Codes("p"))
      && WireRecords.Field(v, SCENARIO_ID) == String(Codes("s")) && WireRecords.Field(v, WRITTEN_KEYS) == Array([])
  {
    var members := CleanupWith(authority).members;
    CleanupKeysInOrder(authority);
    hide Less, Codes, WireRecords.Get, WireCodec.InKeyOrder;
    WireRecords.MemberIsFound(members, 0);
    WireRecords.MemberIsFound(members, 1);
    WireRecords.MemberIsFound(members, 2);
    WireRecords.MemberIsFound(members, 3);
  }

  lemma CleanupIsAccepted(authority: Json, numbers: WireCodec.Numbers)
    requires WireCodec.IsNormal(authority, numbers)
    ensures WireRecords.AcceptsSweepCleanup(CleanupWith(authority))
    ensures WireCodec.IsNormal(CleanupWith(authority), numbers)
    ensures WireRecords.Field(CleanupWith(authority), WireRecords.AUTHORITY) == authority
  {
    Letter("p");
    Letter("s");
    hide Scans, Less, Codes, IsBlank, WireCodec.InKeyOrder, WireCodec.IsNormal, WireRecords.Field;
    hide WireRecords.HasExactly;
    CleanupIsNormal(authority, numbers);
    CleanupFields(authority);
    FourKeys(CleanupWith(authority));
  }

  lemma FourKeys(v: Json)
    requires v.Object? && |v.members| == 4 && v.members[0].key == WireRecords.AUTHORITY
    requires v.members[1].key == FIXTURE_PREFIX && v.members[2].key == SCENARIO_ID && v.members[3].key == WRITTEN_KEYS
    ensures WireRecords.HasExactly(v, WireRecords.SWEEP_CLEANUP_FIELDS)
  {
    hide Codes;
    var keys, fields := WireCodec.Keys(v.members), WireRecords.SWEEP_CLEANUP_FIELDS;
    assert fields[0] == keys[2] && fields[1] == keys[1] && fields[2] == keys[3] && fields[3] == keys[0];
  }

  lemma FiveKeys(v: Json)
    requires v.Object? && |v.members| == 5 && v.members[0].key == WireRecords.CELLS
    requires v.members[1].key == WireRecords.CLEANUP && v.members[2].key == COLLECTION
    requires v.members[3].key == CONTRACT && v.members[4].key == SWEEP_ID
    ensures WireRecords.HasExactly(v, WireRecords.SWEEP_REPORT_FIELDS)
  {
    hide Codes;
    var keys, fields := WireCodec.Keys(v.members), WireRecords.SWEEP_REPORT_FIELDS;
    assert fields[0] == keys[3] && fields[1] == keys[4] && fields[2] == keys[2];
    assert fields[3] == keys[0] && fields[4] == keys[1];
  }

  lemma ReportKeysScan(authority: Json)
    ensures forall i :: 0 <= i < 5 ==> Scans(ReportWith(authority).members[i].key)
    ensures Scans(WireRecords.CONTRACT_ID)
  {
    hide Scans, Codes, CleanupWith;
    CodesScan("cells");
    CodesScan("cleanup");
    CodesScan("collection");
    CodesScan("contract_id");
    CodesScan("sweep_id");
    CodesScan("baerly.workload-ceiling/chunked-snapshot/v1");
  }

  lemma ReportIsNormal(authority: Json, numbers: WireCodec.Numbers)
    requires WireCodec.IsNormal(CleanupWith(authority), numbers) && Scans(Codes("c")) && Scans(Codes("s"))
    ensures WireCodec.IsNormal(ReportWith(authority), numbers)
  {
    hide Scans, Codes, WireCodec.InKeyOrder, WireCodec.IsNormal, CleanupWith;
    var members := ReportWith(authority).members;
    ReportKeysInOrder(authority);
    ReportKeysScan(authority);
    StringIsNormal(Codes("c"), numbers);
    StringIsNormal(Codes("s"), numbers);
    StringIsNormal(WireRecords.CONTRACT_ID, numbers);
    ArrayIsNormal([], numbers);
    ArrayIsNormal([CleanupWith(authority)], numbers);
    ObjectIsNormal(members, numbers);
  }

  lemma ReportFieldsAre(authority: Json)
    ensures
      var v := ReportWith(authority);
      && WireRecords.Field(v, WireRecords.CELLS) == Array([])
      && WireRecords.Field(v, WireRecords.CLEANUP) == Array([CleanupWith(authority)])
      && WireRecords.Field(v, COLLECTION) == String(Codes("c"))
      && WireRecords.Field(v, CONTRACT) == String(WireRecords.CONTRACT_ID)
      && WireRecords.Field(v, SWEEP_ID) == String(Codes("s"))
  {
    var members := ReportWith(authority).members;
    ReportKeysInOrder(authority);
    hide Less, Codes, WireRecords.Get, WireCodec.InKeyOrder, CleanupWith;
    WireRecords.MemberIsFound(members, 0);
    WireRecords.MemberIsFound(members, 1);
    WireRecords.MemberIsFound(members, 2);
    WireRecords.MemberIsFound(members, 3);
    WireRecords.MemberIsFound(members, 4);
  }

  lemma ReportIsAccepted(authority: Json, numbers: WireCodec.Numbers)
    requires WireCodec.IsNormal(authority, numbers)
    ensures WireRecords.AcceptsSweepReport(ReportWith(authority)) && WireCodec.IsNormal(ReportWith(authority), numbers)
    ensures WireRecords.Field(ReportWith(authority), WireRecords.CLEANUP) == Array([CleanupWith(authority)])
  {
    hide *;
    Letter("c");
    Letter("s");
    NamedScans(Codes("c"));
    NamedScans(Codes("s"));
    CleanupIsAccepted(authority, numbers);
    ReportIsNormal(authority, numbers);
    ReportFieldsAre(authority);
    ReportPasses(ReportWith(authority), CleanupWith(authority), authority);
  }

  lemma NamedScans(s: Text)
    requires Named(s)
    ensures Scans(s)
  {
  }

  lemma ReportPasses(v: Json, cleanup: Json, authority: Json)
    requires v == ReportWith(authority) && cleanup == CleanupWith(authority) && Named(Codes("c")) && Named(Codes("s"))
    requires WireRecords.Field(v, WireRecords.CELLS) == Array([])
    requires WireRecords.Field(v, WireRecords.CLEANUP) == Array([cleanup])
    requires WireRecords.Field(v, COLLECTION) == String(Codes("c"))
    requires WireRecords.Field(v, CONTRACT) == String(WireRecords.CONTRACT_ID)
    requires WireRecords.Field(v, SWEEP_ID) == String(Codes("s")) && WireRecords.AcceptsSweepCleanup(cleanup)
    ensures WireRecords.AcceptsSweepReport(v)
  {
    hide Scans, Codes, IsBlank, CleanupWith, WireRecords.Field, WireRecords.AcceptsSweepCleanup, WireRecords.HasExactly;
    FiveKeys(v);
  }

  /** With any authority at all the report passes every check; it decodes exactly when the authority fits. */
  lemma ReportDecodesExactly(authority: Json, numbers: WireCodec.Numbers)
    requires WireCodec.PrintsCanonically(numbers) && WireCodec.IsNormal(authority, numbers)
    ensures
      var v := ReportWith(authority);
      WireCodec.Decode(Print(v), x => WireRecords.AcceptsRecord(WireRecords.SweepReport, x), numbers) ==
        if WireCodec.Fits(authority, MAX_DEPTH - 3) then WireCodec.Ok(v) else WireCodec.NotRepresentable
  {
    var v := ReportWith(authority);
    ReportIsAccepted(authority, numbers);
    CleanupIsAccepted(authority, numbers);
    WireRecords.SweepReportsAreSerializableExactly(v, numbers);
    WireCodec.NormalFixes(v, numbers);
    hide ReportWith, CleanupWith, WireCodec.Normal, WireCodec.IsNormal, WireCodec.Fits, WireRecords.AcceptsSweepReport;
    hide Parse, Print;
    ParseUndoesPrint(v);
    assert CleanupWith(authority) in WireRecords.Field(v, WireRecords.CLEANUP).items;
  }

  /** An authority with a member `__proto__` is normal and the whole report is refused. */
  lemma ForbiddenAuthorityIsRefused(numbers: WireCodec.Numbers)
    requires WireCodec.PrintsCanonically(numbers)
    ensures
      var v := ReportWith(Object([Member(PROTO_KEY, Null)]));
      && WireRecords.AcceptsSweepReport(v) && WireCodec.IsNormal(v, numbers)
      && WireCodec.Decode(Print(v), x => WireRecords.AcceptsRecord(WireRecords.SweepReport, x), numbers) ==
         WireCodec.NotRepresentable
  {
    hide *;
    ForbiddenAuthority(numbers);
    ReportIsAccepted(Object([Member(PROTO_KEY, Null)]), numbers);
    ReportDecodesExactly(Object([Member(PROTO_KEY, Null)]), numbers);
  }

  lemma ForbiddenAuthority(numbers: WireCodec.Numbers)
    ensures
      var authority := Object([Member(PROTO_KEY, Null)]);
      WireCodec.IsNormal(authority, numbers) && !WireCodec.Fits(authority, MAX_DEPTH - 3)
  {
    hide Scans, Less, WireCodec.IsNormal;
    var members := [Member(PROTO_KEY, Null)];
    AsciiScans(PROTO_KEY);
    NullIsNormal(numbers);
    ObjectIsNormal(members, numbers);
    assert members[0].key == PROTO_KEY;
  }

  lemma NullIsNormal(numbers: WireCodec.Numbers)
    ensures WireCodec.IsNormal(Null, numbers)
  {
  }
}
