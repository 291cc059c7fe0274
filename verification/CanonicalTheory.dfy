/** What the canonical serializer promises, for every heap and every value. */
module CanonicalTheory {

  import opened Options
  import opened UnicodeText
  import opened JsonText
  import opened JsHeap
  import opened CanonicalModel

  // ---- What is checked about one object ------------------------------------------------------------

  lemma {:induction false} NoDefectExactly(kind: Kind, properties: seq<Property>)
    ensures FirstDefect(kind, properties).None? <==> forall p :: p in properties ==> AdmissibleProperty(kind, p)
    decreases |properties|
  {
    if properties != [] {
      NoDefectExactly(kind, properties[1..]);
      assert properties == [properties[0]] + properties[1..];
      assert Defect(kind, properties[0]).None? <==> AdmissibleProperty(kind, properties[0]);
    }
  }

  lemma {:induction false} FirstHoleIsLeast(properties: seq<Property>, length: nat)
    ensures FirstHole(properties, length).None? <==> forall i: nat :: i < length ==> Filled(properties, i)
    ensures FirstHole(properties, length).Some? ==>
              var hole := FirstHole(properties, length).value;
              hole < length && !Filled(properties, hole) && forall i: nat :: i < hole ==> Filled(properties, i)
  {
    hide Filled;
    if length > 0 {
      FirstHoleIsLeast(properties, length - 1);
    }
  }

  lemma InspectAdmits(o: JsObject, path: Path)
    ensures Inspect(o, path).Accepted? <==> Admissible(o)
    ensures Admissible(o) ==> Inspect(o, path) == Accepted(ChildrenOf(o.kind, Sorted(o.properties)))
  {
    hide FirstHole, FirstDefect, Filled, AdmissibleProperty, ChildrenOf;
    NoDefectExactly(o.kind, Sorted(o.properties));
    if o.kind.ArrayKind? {
      FirstHoleIsLeast(o.properties, o.kind.length);
    }
  }

  // ---- Texts and trees -----------------------------------------------------------------------------

  lemma {:induction false} JoinedItems(texts: seq<Text>, items: seq<Json>)
    requires |texts| == |items| && forall i :: 0 <= i < |items| ==> texts[i] == Print(items[i])
    ensures Join(texts) == PrintItems(items)
    decreases |texts|
  {
    if texts != [] {
      JoinedItems(texts[1..], items[1..]);
    }
  }

  lemma {:induction false} JoinedMembers(texts: seq<Text>, members: seq<Member>)
    requires |texts| == |members| && forall i :: 0 <= i < |members| ==> texts[i] == PrintMember(members[i])
    ensures Join(texts) == PrintMembers(members)
    decreases |texts|
  {
    if texts != [] {
      JoinedMembers(texts[1..], members[1..]);
    }
  }

  predicate Entries(children: seq<Child>, trees: seq<Json>, texts: seq<Text>) {
    |children| == |trees| == |texts| &&
    forall i :: 0 <= i < |texts| ==> texts[i] == Entry(children[i].step, Print(trees[i]))
  }

  lemma WrappedPrints(kind: Kind, sorted: seq<Property>, trees: seq<Json>, texts: seq<Text>)
    requires Entries(ChildrenOf(kind, sorted), trees, texts)
    ensures Wrap(kind, texts) == Print(Assemble(kind, ChildrenOf(kind, sorted), trees))
  {
    hide Print, Join, Quote;
    var children := ChildrenOf(kind, sorted);
    var whole := Assemble(kind, children, trees);
    if kind.ArrayKind? {
      JoinedItems(texts, trees);
      assert Print(whole) == [OPEN_BRACKET] + PrintItems(trees) + [CLOSE_BRACKET] by { PrintArray(trees); }
    } else {
      forall i | 0 <= i < |texts| ensures texts[i] == PrintMember(whole.members[i]) {
        assert children[i].step == Key(sorted[i].key);
      }
      JoinedMembers(texts, whole.members);
      PrintObject(whole.members);
    }
  }

  lemma PrintArray(items: seq<Json>)
    ensures Print(Array(items)) == [OPEN_BRACKET] + PrintItems(items) + [CLOSE_BRACKET]
  {
  }

  lemma PrintObject(members: seq<Member>)
    ensures Print(Object(members)) == [OPEN_BRACE] + PrintMembers(members) + [CLOSE_BRACE]
  {
  }

  // ---- Acceptance ------------------------------------------------------------------------------------

  /** An accepted text is the printed tree. */
  lemma {:induction false} Sound(heap: Heap, value: JsValue, path: Path, depth: nat, ancestors: set<nat>)
    requires depth <= MAX_DEPTH
    ensures
      var r := Serialize(heap, value, path, depth, ancestors);
      var tree := Tree(heap, value, MAX_DEPTH - depth);
      r.Accepted? ==> tree.Some? && r.value == Print(tree.value)
    decreases MAX_DEPTH + 1 - depth, 0
  {
    hide SerializeAll, Trees, Inspect, ChildrenOf, Admissible, Wrap, Sorted, Assemble, Join;
    if value.Reference? && Serialize(heap, value, path, depth, ancestors).Accepted? {
      var o := heap(value.id);
      InspectAdmits(o, path);
      var children := ChildrenOf(o.kind, Sorted(o.properties));
      SoundAll(heap, children, path, depth + 1, ancestors + {value.id});
      var texts := SerializeAll(heap, children, path, depth + 1, ancestors + {value.id}).value;
      if children == [] {
        WrappedPrints(o.kind, Sorted(o.properties), [], texts);
      } else {
        var trees := Trees(heap, children, MAX_DEPTH - depth - 1).value;
        WrappedPrints(o.kind, Sorted(o.properties), trees, texts);
      }
    }
  }

  lemma TooDeep(heap: Heap, value: JsValue, path: Path, ancestors: set<nat>)
    ensures Serialize(heap, value, path, MAX_DEPTH + 1, ancestors) == Rejected(MaxDepthExceeded, path)
  {
  }

  lemma {:induction false} SoundAll(heap: Heap, children: seq<Child>, path: Path, depth: nat, ancestors: set<nat>)
    requires depth <= MAX_DEPTH + 1
    ensures
      var r := SerializeAll(heap, children, path, depth, ancestors);
      r.Accepted? ==>
        && (children == [] ==> r.value == [])
        && (children != [] ==>
              && depth <= MAX_DEPTH
              && Trees(heap, children, MAX_DEPTH - depth).Some?
              && Entries(children, Trees(heap, children, MAX_DEPTH - depth).value, r.value))
    decreases MAX_DEPTH + 1 - depth, |children|
  {
    hide Tree, ContainerTree, Print, Entry;
    if children != [] && SerializeAll(heap, children, path, depth, ancestors).Accepted? {
      var initial := children[..|children| - 1];
      var last := children[|children| - 1];
      SoundAll(heap, initial, path, depth, ancestors);
      if depth == MAX_DEPTH + 1 {
        TooDeep(heap, last.value, path + [last.step], ancestors);
      }
      Sound(heap, last.value, path + [last.step], depth, ancestors);
    }
  }

  lemma {:induction false} TreeMonotone(heap: Heap, value: JsValue, low: nat, high: nat)
    requires low <= high && Tree(heap, value, low).Some?
    ensures Tree(heap, value, high) == Tree(heap, value, low)
    decreases low, 0
  {
    hide Admissible, ChildrenOf, Sorted, Assemble, Trees;
    if value.Reference? {
      var o := heap(value.id);
      var children := ChildrenOf(o.kind, Sorted(o.properties));
      if children != [] {
        TreesMonotone(heap, children, low - 1, high - 1);
      }
    }
  }

  lemma {:induction false} TreesMonotone(heap: Heap, children: seq<Child>, low: nat, high: nat)
    requires low <= high && Trees(heap, children, low).Some?
    ensures Trees(heap, children, high) == Trees(heap, children, low)
    decreases low, |children| + 1
  {
    hide Tree;
    if children != [] {
      TreesMonotone(heap, children[..|children| - 1], low, high);
      TreeMonotone(heap, children[|children| - 1].value, low, high);
    }
  }

  /** An object under construction stands for a tree that properly contains the one at hand. */
  ghost predicate Encloses(heap: Heap, ancestor: nat, tree: Json) {
    Tree(heap, Reference(ancestor), MAX_DEPTH).Some? && tree < Tree(heap, Reference(ancestor), MAX_DEPTH).value
  }

  ghost predicate AllEnclose(heap: Heap, ancestors: set<nat>, tree: Json) {
    forall a :: a in ancestors ==> Encloses(heap, a, tree)
  }

  lemma PartsAreSmaller(kind: Kind, children: seq<Child>, trees: seq<Json>, i: nat)
    requires |trees| == |children| && i < |trees|
    ensures trees[i] < Assemble(kind, children, trees)
  {
    var whole := Assemble(kind, children, trees);
    if !kind.ArrayKind? {
      assert whole.members[i].value == trees[i];
    }
  }

  /** A value that stands for a tree is accepted, below any ancestors. */
  lemma {:induction false} Complete(heap: Heap, value: JsValue, path: Path, depth: nat, ancestors: set<nat>)
    requires depth <= MAX_DEPTH && Tree(heap, value, MAX_DEPTH - depth).Some?
    requires AllEnclose(heap, ancestors, Tree(heap, value, MAX_DEPTH - depth).value)
    ensures Serialize(heap, value, path, depth, ancestors) ==
            Accepted(Print(Tree(heap, value, MAX_DEPTH - depth).value))
    decreases MAX_DEPTH + 1 - depth, 0
  {
    hide SerializeAll, Trees, Inspect, ChildrenOf, Admissible, Wrap, Sorted, Assemble, Join;
    if value.Reference? {
      var o := heap(value.id);
      var tree := Tree(heap, value, MAX_DEPTH - depth).value;
      TreeMonotone(heap, value, MAX_DEPTH - depth, MAX_DEPTH);
      assert value.id !in ancestors;
      InspectAdmits(o, path);
      var children := ChildrenOf(o.kind, Sorted(o.properties));
      var within := ancestors + {value.id};
      if children == [] {
        NoChildren(heap, path, depth + 1, within);
        WrappedPrints(o.kind, Sorted(o.properties), [], []);
      } else {
        var trees := Trees(heap, children, MAX_DEPTH - depth - 1).value;
        forall i | 0 <= i < |trees| ensures AllEnclose(heap, within, trees[i]) {
          PartsAreSmaller(o.kind, children, trees, i);
        }
        CompleteAll(heap, children, trees, path, depth + 1, within);
        WrappedPrints(o.kind, Sorted(o.properties), trees,
                      SerializeAll(heap, children, path, depth + 1, within).value);
      }
    }
  }

  lemma {:induction false} CompleteAll(heap: Heap, children: seq<Child>, trees: seq<Json>,
                                       path: Path, depth: nat, ancestors: set<nat>)
    requires depth <= MAX_DEPTH && Trees(heap, children, MAX_DEPTH - depth) == Some(trees)
    requires forall i :: 0 <= i < |trees| ==> AllEnclose(heap, ancestors, trees[i])
    ensures
      var r := SerializeAll(heap, children, path, depth, ancestors);
      r.Accepted? && Entries(children, trees, r.value)
    decreases MAX_DEPTH + 1 - depth, |children|
  {
    hide Tree, ContainerTree, Print, Entry, AllEnclose;
    if children != [] {
      var initial := children[..|children| - 1];
      var last := children[|children| - 1];
      var before := Trees(heap, initial, MAX_DEPTH - depth).value;
      var tree := Tree(heap, last.value, MAX_DEPTH - depth).value;
      assert trees == before + [tree];
      assert forall i :: 0 <= i < |before| ==> before[i] == trees[i];
      CompleteAll(heap, initial, before, path, depth, ancestors);
      assert trees[|before|] == tree;
      Complete(heap, last.value, path + [last.step], depth, ancestors);
    }
  }

  /**
   A value is accepted exactly when it stands for a JSON tree nested at most 256 deep, and then
   its text is that tree's.
   */
  lemma AcceptsExactly(heap: Heap, value: JsValue)
    ensures Canonical(heap, value).Accepted? <==> Tree(heap, value, MAX_DEPTH).Some?
    ensures Tree(heap, value, MAX_DEPTH).Some? ==>
            Canonical(heap, value) == Accepted(Print(Tree(heap, value, MAX_DEPTH).value))
  {
    hide Tree, Serialize;
    Sound(heap, value, [], 0, {});
    if Tree(heap, value, MAX_DEPTH).Some? {
      Complete(heap, value, [], 0, {});
    }
  }

  // ---- Cycles and depth ------------------------------------------------------------------------------

  /** Each object holds a reference to the next. */
  ghost predicate IsChain(heap: Heap, chain: seq<nat>) {
    forall k :: 0 <= k < |chain| - 1 ==> Holds(heap, chain[k], chain[k + 1])
  }

  ghost predicate Holds(heap: Heap, parent: nat, child: nat) {
    exists p :: p in heap(parent).properties && ValueOf(p.descriptor) == Reference(child)
  }

  lemma HeldIsChild(heap: Heap, parent: nat, child: nat)
    requires Proper(heap) && Admissible(heap(parent)) && Holds(heap, parent, child)
    ensures
      var o := heap(parent);
      exists c :: c in ChildrenOf(o.kind, Sorted(o.properties)) && c.value == Reference(child)
  {
    var o := heap(parent);
    var sorted := Sorted(o.properties);
    var children := ChildrenOf(o.kind, sorted);
    var p :| p in o.properties && ValueOf(p.descriptor) == Reference(child);
    assert p in sorted;
    if o.kind.ArrayKind? {
      ArrayIndexExactly(p.key, o.kind.length);
      var i: nat :| i < o.kind.length && p.key == Decimal(i);
      SortedInOrder(o.properties);
      FindOwn(sorted, p);
      assert children[i] == ChildAt(sorted, i);
      assert children[i].value == Reference(child);
    } else {
      var i :| 0 <= i < |sorted| && sorted[i] == p;
      assert children[i].value == Reference(child);
    }
  }

  lemma FindOwn(properties: seq<Property>, p: Property)
    requires Distinct(properties) && p in properties
    ensures Find(properties, p.key) == Some(p)
  {
  }

  lemma {:induction false} EveryChildHasTree(heap: Heap, children: seq<Child>, budget: nat, c: Child)
    requires Trees(heap, children, budget).Some? && c in children
    ensures Tree(heap, c.value, budget).Some?
    decreases |children|
  {
    hide Tree;
    var initial := children[..|children| - 1];
    assert children == initial + [children[|children| - 1]];
    if c in initial {
      EveryChildHasTree(heap, initial, budget, c);
    }
  }

  lemma HeldTree(heap: Heap, parent: nat, child: nat, budget: nat)
    requires Proper(heap) && Holds(heap, parent, child)
    requires Tree(heap, Reference(parent), budget).Some?
    ensures budget > 0 && Tree(heap, Reference(child), budget - 1).Some?
  {
    hide Trees, ChildrenOf, Sorted, Assemble, Holds, Proper;
    var o := heap(parent);
    HeldIsChild(heap, parent, child);
    var c :| c in ChildrenOf(o.kind, Sorted(o.properties)) && c.value == Reference(child);
    assert Trees(heap, ChildrenOf(o.kind, Sorted(o.properties)), budget - 1).Some?;
    EveryChildHasTree(heap, ChildrenOf(o.kind, Sorted(o.properties)), budget - 1, c);
  }

  /** An object from which a chain of references is too long has no tree. */
  lemma {:induction false} ChainsAreShort(heap: Heap, chain: seq<nat>, budget: nat)
    requires Proper(heap) && chain != [] && IsChain(heap, chain)
    requires Tree(heap, Reference(chain[0]), budget).Some?
    ensures |chain| <= budget + 1
    decreases |chain|
  {
    hide Tree, Holds, Proper;
    if |chain| > 1 {
      assert Holds(heap, chain[0], chain[0 + 1]);
      HeldTree(heap, chain[0], chain[1], budget);
      var rest := chain[1..];
      forall k | 0 <= k < |rest| - 1 ensures Holds(heap, rest[k], rest[k + 1]) {
        assert Holds(heap, chain[k + 1], chain[k + 1 + 1]);
      }
      ChainsAreShort(heap, rest, budget - 1);
    }
  }

  function Around(cycle: seq<nat>, times: nat): seq<nat> {
    if times == 0 then [] else cycle + Around(cycle, times - 1)
  }

  lemma {:induction false} AroundIsChain(heap: Heap, cycle: seq<nat>, times: nat)
    requires cycle != [] && IsChain(heap, cycle) && Holds(heap, cycle[|cycle| - 1], cycle[0])
    ensures IsChain(heap, Around(cycle, times)) && |Around(cycle, times)| >= times
    ensures times > 0 ==> Around(cycle, times)[0] == cycle[0]
  {
    hide Holds;
    if times > 0 {
      AroundIsChain(heap, cycle, times - 1);
      var rest := Around(cycle, times - 1);
      var all := cycle + rest;
      forall k | 0 <= k < |all| - 1 ensures Holds(heap, all[k], all[k + 1]) {
        if k >= |cycle| {
          assert Holds(heap, rest[k - |cycle|], rest[k - |cycle| + 1]);
        }
      }
    }
  }

  /** No value on a cycle is accepted, however long the cycle. */
  lemma CyclesAreRejected(heap: Heap, cycle: seq<nat>)
    requires Proper(heap) && cycle != [] && IsChain(heap, cycle) && Holds(heap, cycle[|cycle| - 1], cycle[0])
    ensures Canonical(heap, Reference(cycle[0])).Rejected?
  {
    hide Tree, Holds, IsChain, Around, Canonical;
    AcceptsExactly(heap, Reference(cycle[0]));
    if Tree(heap, Reference(cycle[0]), MAX_DEPTH).Some? {
      AroundIsChain(heap, cycle, MAX_DEPTH + 2);
      ChainsAreShort(heap, Around(cycle, MAX_DEPTH + 2), MAX_DEPTH);
    }
  }

  // ---- Insertion order ---------------------------------------------------------------------------------

  ghost predicate Reordered(a: JsObject, b: JsObject) {
    && a.kind == b.kind && a.symbolKeyed == b.symbolKeyed
    && Distinct(a.properties) && Distinct(b.properties)
    && forall p :: p in a.properties <==> p in b.properties
  }

  lemma {:induction false} HolesForgetOrder(a: seq<Property>, b: seq<Property>, length: nat)
    requires Distinct(a) && Distinct(b) && forall p :: p in a <==> p in b
    ensures FirstHole(a, length) == FirstHole(b, length)
    decreases length
  {
    hide Find, Distinct;
    if length > 0 {
      HolesForgetOrder(a, b, length - 1);
      FindDecided(a, b, Decimal(length - 1));
    }
  }

  lemma InspectForgetsOrder(a: JsObject, b: JsObject, path: Path)
    requires Reordered(a, b)
    ensures Inspect(a, path) == Inspect(b, path)
  {
    hide FirstHole, FirstDefect, Sorted, Distinct, ChildrenOf;
    SortForgetsOrder(a.properties, b.properties);
    if a.kind.ArrayKind? {
      HolesForgetOrder(a.properties, b.properties, a.kind.length);
    }
  }

  /** The text, and on failure the reason and the path, do not depend on insertion order. */
  lemma {:induction false} InsertionOrderInvisible(a: Heap, b: Heap, value: JsValue,
                                                   path: Path, depth: nat, ancestors: set<nat>)
    requires depth <= MAX_DEPTH + 1 && forall id: nat :: Reordered(a(id), b(id))
    ensures Serialize(a, value, path, depth, ancestors) == Serialize(b, value, path, depth, ancestors)
    decreases MAX_DEPTH + 1 - depth, 0
  {
    hide SerializeAll, Inspect, Wrap, Reordered;
    if value.Reference? && depth <= MAX_DEPTH {
      assert Reordered(a(value.id), b(value.id));
      InspectForgetsOrder(a(value.id), b(value.id), path);
      assert a(value.id).kind == b(value.id).kind by { ReorderedKind(a(value.id), b(value.id)); }
      if Inspect(a(value.id), path).Accepted? {
        OrderInvisibleToAll(a, b, Inspect(a(value.id), path).value, path, depth + 1, ancestors + {value.id});
      }
    }
  }

  lemma ReorderedKind(a: JsObject, b: JsObject)
    requires Reordered(a, b)
    ensures a.kind == b.kind
  {
  }

  lemma {:induction false} OrderInvisibleToAll(a: Heap, b: Heap, children: seq<Child>,
                                               path: Path, depth: nat, ancestors: set<nat>)
    requires depth <= MAX_DEPTH + 1 && forall id: nat :: Reordered(a(id), b(id))
    ensures SerializeAll(a, children, path, depth, ancestors) == SerializeAll(b, children, path, depth, ancestors)
    decreases MAX_DEPTH + 1 - depth, |children|
  {
    hide Serialize, Reordered;
    if children != [] {
      var last := children[|children| - 1];
      OrderInvisibleToAll(a, b, children[..|children| - 1], path, depth, ancestors);
      InsertionOrderInvisible(a, b, last.value, path + [last.step], depth, ancestors);
    }
  }

  // ---- Sharing -------------------------------------------------------------------------------------------

  function MapValue(f: nat -> nat, value: JsValue): JsValue {
    if value.Reference? then Reference(f(value.id)) else value
  }

  function MapProperty(f: nat -> nat, p: Property): Property {
    if p.descriptor.Data? then p.(descriptor := p.descriptor.(value := MapValue(f, p.descriptor.value))) else p
  }

  function MapProperties(f: nat -> nat, properties: seq<Property>): (r: seq<Property>)
    ensures |r| == |properties|
    ensures forall i :: 0 <= i < |r| ==> r[i] == MapProperty(f, properties[i])
  {
    if properties == [] then [] else [MapProperty(f, properties[0])] + MapProperties(f, properties[1..])
  }

  function MapObject(f: nat -> nat, o: JsObject): JsObject {
    o.(properties := MapProperties(f, o.properties))
  }

  function MapChild(f: nat -> nat, c: Child): Child {
    c.(value := MapValue(f, c.value))
  }

  function MapChildren(f: nat -> nat, children: seq<Child>): (r: seq<Child>)
    ensures |r| == |children|
    ensures forall i :: 0 <= i < |r| ==> r[i] == MapChild(f, children[i])
  {
    seq(|children|, i requires 0 <= i < |children| => MapChild(f, children[i]))
  }

  /** `f` takes every object of one heap to the object of the other that it is a copy of. */
  ghost predicate Copies(copied: Heap, shared: Heap, f: nat -> nat) {
    forall id: nat :: shared(f(id)) == MapObject(f, copied(id))
  }

  lemma {:induction false} InsertMaps(f: nat -> nat, p: Property, sorted: seq<Property>)
    ensures Insert(MapProperty(f, p), MapProperties(f, sorted)) == MapProperties(f, Insert(p, sorted))
    decreases |sorted|
  {
    var mapped := MapProperties(f, sorted);
    if sorted != [] {
      InsertMaps(f, p, sorted[1..]);
      assert mapped[1..] == MapProperties(f, sorted[1..]);
    }
  }

  lemma {:induction false} SortMaps(f: nat -> nat, properties: seq<Property>)
    ensures Sorted(MapProperties(f, properties)) == MapProperties(f, Sorted(properties))
    decreases |properties|
  {
    if properties != [] {
      SortMaps(f, properties[1..]);
      InsertMaps(f, properties[0], Sorted(properties[1..]));
    }
  }

  lemma {:induction false} FindMaps(f: nat -> nat, properties: seq<Property>, key: Text)
    ensures
      var r := Find(properties, key);
      Find(MapProperties(f, properties), key) == if r.Some? then Some(MapProperty(f, r.value)) else None
    decreases |properties|
  {
    if properties != [] {
      FindMaps(f, properties[1..], key);
      assert MapProperties(f, properties)[1..] == MapProperties(f, properties[1..]);
    }
  }

  lemma {:induction false} HolesMap(f: nat -> nat, properties: seq<Property>, length: nat)
    ensures FirstHole(MapProperties(f, properties), length) == FirstHole(properties, length)
    decreases length
  {
    hide Find, MapProperties, MapProperty;
    if length > 0 {
      HolesMap(f, properties, length - 1);
      FindMaps(f, properties, Decimal(length - 1));
    }
  }

  lemma {:induction false} DefectsMap(f: nat -> nat, kind: Kind, properties: seq<Property>)
    ensures FirstDefect(kind, MapProperties(f, properties)) == FirstDefect(kind, properties)
    decreases |properties|
  {
    if properties != [] {
      DefectsMap(f, kind, properties[1..]);
      assert MapProperties(f, properties)[1..] == MapProperties(f, properties[1..]);
    }
  }

  lemma ChildrenMap(f: nat -> nat, kind: Kind, sorted: seq<Property>)
    ensures ChildrenOf(kind, MapProperties(f, sorted)) == MapChildren(f, ChildrenOf(kind, sorted))
  {
    hide Find, MapProperties;
    if kind.ArrayKind? {
      forall i: nat | i < kind.length
        ensures ChildAt(MapProperties(f, sorted), i) == MapChild(f, ChildAt(sorted, i))
      {
        FindMaps(f, sorted, Decimal(i));
      }
    }
    var left := ChildrenOf(kind, MapProperties(f, sorted));
    var right := MapChildren(f, ChildrenOf(kind, sorted));
    assert |left| == |right|;
    forall i | 0 <= i < |left| ensures left[i] == right[i] {
      assert kind.ArrayKind? ==> left[i] == ChildAt(MapProperties(f, sorted), i);
    }
  }

  lemma InspectMaps(f: nat -> nat, o: JsObject, path: Path)
    ensures
      var r := Inspect(o, path);
      Inspect(MapObject(f, o), path) == if r.Accepted? then Accepted(MapChildren(f, r.value)) else r
  {
    hide FirstHole, FirstDefect, Sorted, MapProperties, ChildrenOf, MapChildren;
    SortMaps(f, o.properties);
    DefectsMap(f, o.kind, Sorted(o.properties));
    ChildrenMap(f, o.kind, Sorted(o.properties));
    if o.kind.ArrayKind? {
      HolesMap(f, o.properties, o.kind.length);
    }
  }

  lemma AdmissibleMaps(f: nat -> nat, o: JsObject)
    ensures Admissible(MapObject(f, o)) == Admissible(o)
    ensures ChildrenOf(o.kind, Sorted(MapObject(f, o).properties)) ==
            MapChildren(f, ChildrenOf(o.kind, Sorted(o.properties)))
  {
    hide Inspect, Admissible, ChildrenOf, Sorted, MapChildren, MapProperties;
    InspectMaps(f, o, []);
    InspectAdmits(o, []);
    InspectAdmits(MapObject(f, o), []);
    SortMaps(f, o.properties);
    ChildrenMap(f, o.kind, Sorted(o.properties));
  }

  /** A value and its copy stand for the same tree, whatever is shared and whatever is cyclic. */
  lemma {:induction false} CopyHasSameTree(copied: Heap, shared: Heap, f: nat -> nat, value: JsValue, budget: nat)
    requires Copies(copied, shared, f)
    ensures Tree(copied, value, budget) == Tree(shared, MapValue(f, value), budget)
    decreases budget, 0
  {
    hide Admissible, ChildrenOf, Sorted, Assemble, Trees, MapProperties, MapChildren;
    if value.Reference? {
      var o := copied(value.id);
      AdmissibleMaps(f, o);
      var children := ChildrenOf(o.kind, Sorted(o.properties));
      assert |MapChildren(f, children)| == |children|;
      if children != [] && budget > 0 {
        CopiesHaveSameTrees(copied, shared, f, children, budget - 1);
        if Trees(copied, children, budget - 1).Some? {
          SameAssembly(f, o.kind, children, Trees(copied, children, budget - 1).value);
        }
      }
    }
  }

  lemma SameAssembly(f: nat -> nat, kind: Kind, children: seq<Child>, trees: seq<Json>)
    requires |trees| == |children|
    ensures Assemble(kind, MapChildren(f, children), trees) == Assemble(kind, children, trees)
  {
  }

  lemma {:induction false} CopiesHaveSameTrees(copied: Heap, shared: Heap, f: nat -> nat,
                                               children: seq<Child>, budget: nat)
    requires Copies(copied, shared, f)
    ensures Trees(copied, children, budget) == Trees(shared, MapChildren(f, children), budget)
    decreases budget, |children| + 1
  {
    hide Tree, Copies;
    if children != [] {
      var initial := children[..|children| - 1];
      CopiesHaveSameTrees(copied, shared, f, initial, budget);
      CopyHasSameTree(copied, shared, f, children[|children| - 1].value, budget);
      var mapped := MapChildren(f, children);
      assert mapped[..|mapped| - 1] == MapChildren(f, initial);
    }
  }

  /** Separate copies are accepted exactly when the shared original is, with the same text. */
  lemma CopiesAcceptedAlike(copied: Heap, shared: Heap, f: nat -> nat, value: JsValue)
    requires Copies(copied, shared, f)
    ensures
      var r := Canonical(copied, value);
      if r.Accepted? then Canonical(shared, MapValue(f, value)) == r
      else Canonical(shared, MapValue(f, value)).Rejected?
  {
    hide Tree, Canonical, Copies;
    CopyHasSameTree(copied, shared, f, value, MAX_DEPTH);
    AcceptsExactly(copied, value);
    AcceptsExactly(shared, MapValue(f, value));
  }

  /** The live objects can be ranked so that references lead downwards: no cycles. */
  ghost predicate Acyclic(heap: Heap, live: iset<nat>, rank: nat -> nat) {
    forall parent: nat, child: nat :: parent in live && Holds(heap, parent, child) ==>
      child in live && rank(child) < rank(parent)
  }

  lemma ChildIsHeld(heap: Heap, parent: nat, c: Child)
    requires c in ChildrenOf(heap(parent).kind, Sorted(heap(parent).properties))
    ensures c.value == Undefined ||
            exists p :: p in heap(parent).properties && ValueOf(p.descriptor) == c.value
  {
  }

  ghost predicate Below(live: iset<nat>, rank: nat -> nat, value: JsValue, bound: nat) {
    value.Reference? ==> value.id in live && rank(value.id) < bound
  }

  /** Without cycles, a shared object gives the result of separate copies: text, reason and path. */
  lemma {:induction false} SharingInvisible(
      copied: Heap, shared: Heap, f: nat -> nat, live: iset<nat>, rank: nat -> nat, bound: nat,
      value: JsValue, path: Path, depth: nat, above: set<nat>, ancestors: set<nat>)
    requires depth <= MAX_DEPTH + 1 && Copies(copied, shared, f) && Acyclic(shared, live, rank)
    requires Below(live, rank, MapValue(f, value), bound)
    requires forall a :: a in above ==> rank(f(a)) >= bound
    requires forall a :: a in ancestors ==> rank(a) >= bound
    ensures Serialize(copied, value, path, depth, above) ==
            Serialize(shared, MapValue(f, value), path, depth, ancestors)
    decreases MAX_DEPTH + 1 - depth, 0
  {
    hide SerializeAll, Inspect, Wrap, MapProperties, ChildrenOf, Sorted, Acyclic, MapChildren;
    if value.Reference? && depth <= MAX_DEPTH {
      var o := copied(value.id);
      var id := f(value.id);
      InspectMaps(f, o, path);
      if Inspect(o, path).Accepted? {
        var children := Inspect(o, path).value;
        InspectAdmits(shared(id), path);
        forall i | 0 <= i < |children| ensures Below(live, rank, MapChild(f, children[i]).value, rank(id)) {
          var c := MapChildren(f, children)[i];
          ChildIsHeld(shared, id, c);
          HeldIsBelow(shared, live, rank, id, c.value);
        }
        SharingInvisibleToAll(copied, shared, f, live, rank, rank(id), children,
                              path, depth + 1, above + {value.id}, ancestors + {id});
      }
    }
  }

  lemma HeldIsBelow(heap: Heap, live: iset<nat>, rank: nat -> nat, parent: nat, value: JsValue)
    requires Acyclic(heap, live, rank) && parent in live
    requires value == Undefined || exists p :: p in heap(parent).properties && ValueOf(p.descriptor) == value
    ensures Below(live, rank, value, rank(parent))
  {
  }

  lemma {:induction false} SharingInvisibleToAll(
      copied: Heap, shared: Heap, f: nat -> nat, live: iset<nat>, rank: nat -> nat, bound: nat,
      children: seq<Child>, path: Path, depth: nat, above: set<nat>, ancestors: set<nat>)
    requires depth <= MAX_DEPTH + 1 && Copies(copied, shared, f) && Acyclic(shared, live, rank)
    requires forall i :: 0 <= i < |children| ==> Below(live, rank, MapChild(f, children[i]).value, bound)
    requires forall a :: a in above ==> rank(f(a)) >= bound
    requires forall a :: a in ancestors ==> rank(a) >= bound
    ensures SerializeAll(copied, children, path, depth, above) ==
            SerializeAll(shared, MapChildren(f, children), path, depth, ancestors)
    decreases MAX_DEPTH + 1 - depth, |children|
  {
    hide Serialize, Acyclic, Copies, Below;
    if children != [] {
      var initial := children[..|children| - 1];
      var last := children[|children| - 1];
      SharingInvisibleToAll(copied, shared, f, live, rank, bound, initial, path, depth, above, ancestors);
      SharingInvisible(copied, shared, f, live, rank, bound, last.value, path + [last.step], depth, above, ancestors);
      var mapped := MapChildren(f, children);
      assert mapped[..|mapped| - 1] == MapChildren(f, initial);
    }
  }

  // ---- Equal texts, equal bytes -------------------------------------------------------------------------

  predicate NumeralValue(value: JsValue) {
    value.NumberValue? ==> IsNumeral(value.numeral)
  }

  /** Numbers print as JSON numerals. */
  ghost predicate PrintsNumerals(heap: Heap) {
    forall id: nat, p :: p in heap(id).properties ==> NumeralValue(ValueOf(p.descriptor))
  }

  /** Every string and key is in the I-JSON domain and every number is a numeral. */
  predicate IjsonTree(v: Json) {
    match v
    case Number(numeral) => IsNumeral(numeral)
    case String(text) => Scans(text)
    case Array(items) => forall i :: 0 <= i < |items| ==> IjsonTree(items[i])
    case Object(members) =>
      forall i :: 0 <= i < |members| ==> Scans(members[i].key) && IjsonTree(members[i].value)
    case _ => true
  }

  lemma {:induction false} IjsonTreeIsWellFormed(v: Json)
    requires IjsonTree(v)
    ensures WellFormed(v)
    decreases v
  {
    match v
    case Array(items) =>
      forall i | 0 <= i < |items| ensures WellFormed(items[i]) {
        IjsonTreeIsWellFormed(items[i]);
      }
    case Object(members) =>
      forall i | 0 <= i < |members| ensures WellFormed(members[i].value) {
        IjsonTreeIsWellFormed(members[i].value);
      }
    case _ =>
  }

  lemma {:induction false} TreeIsIjson(heap: Heap, value: JsValue, budget: nat)
    requires PrintsNumerals(heap) && NumeralValue(value) && Tree(heap, value, budget).Some?
    ensures IjsonTree(Tree(heap, value, budget).value)
    decreases budget, 0
  {
    hide ChildrenOf, Sorted, Trees;
    if value.Reference? {
      var o := heap(value.id);
      var children := ChildrenOf(o.kind, Sorted(o.properties));
      var trees := if children == [] then [] else Trees(heap, children, budget - 1).value;
      forall i | 0 <= i < |children| ensures NumeralValue(children[i].value) {
        ChildIsHeld(heap, value.id, children[i]);
      }
      if children != [] {
        TreesAreIjson(heap, children, budget - 1);
      }
      AssembledIsIjson(o, trees);
    }
  }

  lemma {:induction false} TreesAreIjson(heap: Heap, children: seq<Child>, budget: nat)
    requires PrintsNumerals(heap) && forall i :: 0 <= i < |children| ==> NumeralValue(children[i].value)
    requires Trees(heap, children, budget).Some?
    ensures forall i :: 0 <= i < |children| ==> IjsonTree(Trees(heap, children, budget).value[i])
    decreases budget, |children| + 1
  {
    hide Tree, IjsonTree, PrintsNumerals;
    if children != [] {
      TreesAreIjson(heap, children[..|children| - 1], budget);
      TreeIsIjson(heap, children[|children| - 1].value, budget);
    }
  }

  lemma AssembledIsIjson(o: JsObject, trees: seq<Json>)
    requires Admissible(o) && |trees| == |ChildrenOf(o.kind, Sorted(o.properties))|
    requires forall i :: 0 <= i < |trees| ==> IjsonTree(trees[i])
    ensures IjsonTree(Assemble(o.kind, ChildrenOf(o.kind, Sorted(o.properties)), trees))
  {
    hide Scans;
    var sorted := Sorted(o.properties);
    var children := ChildrenOf(o.kind, sorted);
    if !o.kind.ArrayKind? {
      forall i | 0 <= i < |trees| ensures children[i].step.Key? && Scans(children[i].step.key) {
        assert sorted[i] in o.properties;
      }
    }
  }

  /** The accepted text is read back, by any parser, as the tree the value stands for. */
  lemma ReadsBack(heap: Heap, value: JsValue)
    requires PrintsNumerals(heap) && NumeralValue(value) && Canonical(heap, value).Accepted?
    ensures Parse(Canonical(heap, value).value) == Tree(heap, value, MAX_DEPTH)
  {
    hide Tree, Canonical, PrintsNumerals, Parse, Print;
    AcceptsExactly(heap, value);
    TreeIsIjson(heap, value, MAX_DEPTH);
    IjsonTreeIsWellFormed(Tree(heap, value, MAX_DEPTH).value);
    ParseUndoesPrint(Tree(heap, value, MAX_DEPTH).value);
  }

  /** Equal texts come from values that stand for equal trees. */
  lemma SameTextSameValue(a: Heap, x: JsValue, b: Heap, y: JsValue)
    requires PrintsNumerals(a) && NumeralValue(x) && PrintsNumerals(b) && NumeralValue(y)
    requires Canonical(a, x).Accepted? && Canonical(a, x) == Canonical(b, y)
    ensures Tree(a, x, MAX_DEPTH) == Tree(b, y, MAX_DEPTH)
  {
    ReadsBack(a, x);
    ReadsBack(b, y);
  }

  /** A tree's members are an object's properties, once each, in key order. */
  lemma MembersAreProperties(heap: Heap, id: nat, budget: nat)
    requires Proper(heap) && heap(id).kind.PlainKind? && Tree(heap, Reference(id), budget).Some?
    ensures
      var tree := Tree(heap, Reference(id), budget).value;
      && tree.Object? && |tree.members| == |heap(id).properties|
      && (forall i, j :: 0 <= i < j < |tree.members| ==> Less(tree.members[i].key, tree.members[j].key))
      && (forall p :: p in heap(id).properties ==>
            exists m :: m in tree.members && m.key == p.key && budget > 0 &&
              Tree(heap, ValueOf(p.descriptor), budget - 1) == Some(m.value))
  {
    hide Tree, Sorted, Trees, Admissible, ChildrenOf;
    var o := heap(id);
    var sorted := Sorted(o.properties);
    var children := ChildrenOf(o.kind, sorted);
    PlainChildren(o.kind, sorted);
    SortedInOrder(o.properties);
    assert Tree(heap, Reference(id), budget) == ContainerTree(heap, id, budget) by { ReferenceTree(heap, id, budget); }
    var members := Tree(heap, Reference(id), budget).value.members;
    forall p | p in o.properties
      ensures exists m :: m in members && m.key == p.key && budget > 0 &&
                Tree(heap, ValueOf(p.descriptor), budget - 1) == Some(m.value)
    {
      var i :| 0 <= i < |sorted| && sorted[i] == p;
      TreesAreTrees(heap, children, budget - 1);
      assert members[i] in members && members[i].key == p.key;
    }
  }

  lemma ReferenceTree(heap: Heap, id: nat, budget: nat)
    ensures Tree(heap, Reference(id), budget) == ContainerTree(heap, id, budget)
  {
  }

  lemma PlainChildren(kind: Kind, sorted: seq<Property>)
    requires !kind.ArrayKind?
    ensures |ChildrenOf(kind, sorted)| == |sorted|
    ensures forall i :: 0 <= i < |sorted| ==>
      ChildrenOf(kind, sorted)[i] == Child(Key(sorted[i].key), ValueOf(sorted[i].descriptor))
  {
  }

  lemma {:induction false} TreesAreTrees(heap: Heap, children: seq<Child>, budget: nat)
    requires Trees(heap, children, budget).Some?
    ensures forall i :: 0 <= i < |children| ==>
      Tree(heap, children[i].value, budget) == Some(Trees(heap, children, budget).value[i])
    decreases |children|
  {
    hide Tree;
    if children != [] {
      TreesAreTrees(heap, children[..|children| - 1], budget);
    }
  }

  // ---- What is hashed -------------------------------------------------------------------------------------

  lemma {:induction false} ScansConcatenate(a: Text, b: Text)
    requires Scans(a) && Scans(b)
    ensures Scans(a + b)
    decreases |a|
  {
    if a == [] {
      assert a + b == b;
    } else {
      assert Stride(a + b) == Stride(a);
      assert (a + b)[Stride(a)..] == a[Stride(a)..] + b;
      ScansConcatenate(a[Stride(a)..], b);
    }
  }

  predicate IsAscii(s: Text) {
    forall k :: 0 <= k < |s| ==> s[k] < 0x80
  }

  lemma {:induction false} AsciiScans(s: Text)
    requires IsAscii(s)
    ensures Scans(s)
    decreases |s|
  {
    if s != [] {
      AsciiScans(s[1..]);
    }
  }

  lemma {:induction false} DigitsAreAscii(s: Text)
    ensures IsAscii(s[..Digits(s)])
    decreases |s|
  {
    if Digits(s) > 0 {
      DigitsAreAscii(s[1..]);
      assert s[..Digits(s)] == [s[0]] + s[1..][..Digits(s[1..])];
    }
  }

  lemma FractionIsAscii(s: Text)
    ensures IsAscii(s[..Fraction(s)])
  {
    if Fraction(s) > 0 {
      DigitsAreAscii(s[1..]);
      assert s[..Fraction(s)] == [s[0]] + s[1..][..Digits(s[1..])];
    }
  }

  lemma ExponentIsAscii(s: Text)
    ensures IsAscii(s[..Exponent(s)])
  {
    if Exponent(s) > 0 {
      var sign := if |s| > 1 && (s[1] == 0x2B || s[1] == 0x2D) then 1 else 0;
      DigitsAreAscii(s[1 + sign..]);
      assert s[..Exponent(s)] == s[..1 + sign] + s[1 + sign..][..Digits(s[1 + sign..])];
    }
  }

  lemma NumeralIsAscii(t: Text)
    requires IsNumeral(t)
    ensures IsAscii(t)
  {
    hide Digits, Fraction, Exponent;
    var sign := if t[0] == 0x2D then 1 else 0;
    var unsigned := t[sign..];
    DigitsAreAscii(unsigned);
    var whole := sign + Whole(unsigned);
    var fraction := whole + Fraction(t[whole..]);
    FractionIsAscii(t[whole..]);
    ExponentIsAscii(t[fraction..]);
    assert t == t[..sign] + unsigned[..Whole(unsigned)] + t[whole..][..Fraction(t[whole..])] +
                t[fraction..][..Exponent(t[fraction..])];
  }

  lemma {:induction false} EscapedScans(s: Text)
    requires Scans(s)
    ensures Scans(EscapeAll(s))
    decreases |s|
  {
    if s != [] {
      var n := Stride(s);
      EscapedScans(s[n..]);
      if n == 2 {
        assert EscapeAll(s) == s[..2] + EscapeAll(s[2..]) by {
          assert EscapeAll(s) == [s[0]] + EscapeAll(s[1..]);
          assert s[1..][1..] == s[2..];
        }
        assert s[..2][2..] == [];
        assert Scans(s[..2]);
        ScansConcatenate(s[..2], EscapeAll(s[2..]));
      } else {
        EscapeScans(s[0]);
        ScansConcatenate(Escape(s[0]), EscapeAll(s[1..]));
      }
    }
  }

  lemma EscapeScans(u: CodeUnit)
    requires Scans([u])
    ensures Scans(Escape(u))
  {
    if Escape(u) != [u] {
      AsciiScans(Escape(u));
    }
  }

  lemma QuotedScans(s: Text)
    requires Scans(s)
    ensures Scans(Quote(s))
  {
    EscapedScans(s);
    AsciiScans([QUOTE]);
    ScansConcatenate([QUOTE], EscapeAll(s));
    ScansConcatenate([QUOTE] + EscapeAll(s), [QUOTE]);
  }

  lemma BracketsScan(open: CodeUnit, inner: Text, close: CodeUnit)
    requires open < 0x80 && close < 0x80 && Scans(inner)
    ensures Scans([open] + inner + [close])
  {
    AsciiScans([open]);
    AsciiScans([close]);
    ScansConcatenate([open], inner);
    ScansConcatenate([open] + inner, [close]);
  }

  lemma CommaScans(first: Text, rest: Text)
    requires Scans(first) && Scans(rest)
    ensures Scans(first + ([COMMA] + rest))
  {
    AsciiScans([COMMA]);
    ScansConcatenate([COMMA], rest);
    ScansConcatenate(first, [COMMA] + rest);
  }

  lemma {:induction false} PrintScans(v: Json)
    requires IjsonTree(v)
    ensures Scans(Print(v))
    decreases v
  {
    hide Scans, PrintItems, PrintMembers, Quote, NumeralLength;
    match v
    case Null => AsciiScans(NULL_WORD);
    case Boolean(truth) => AsciiScans(if truth then TRUE_WORD else FALSE_WORD);
    case Number(numeral) =>
      NumeralIsAscii(numeral);
      AsciiScans(numeral);
    case String(text) => QuotedScans(text);
    case Array(items) =>
      ItemsScan(items);
      BracketsScan(OPEN_BRACKET, PrintItems(items), CLOSE_BRACKET);
    case Object(members) =>
      MembersScan(members);
      BracketsScan(OPEN_BRACE, PrintMembers(members), CLOSE_BRACE);
  }

  lemma {:induction false} ItemsScan(items: seq<Json>)
    requires forall i :: 0 <= i < |items| ==> IjsonTree(items[i])
    ensures Scans(PrintItems(items))
    decreases items
  {
    hide Print, IjsonTree;
    if items != [] {
      PrintScans(items[0]);
      ItemsScan(items[1..]);
      CommaScans(Print(items[0]), PrintItems(items[1..]));
      assert Print(items[0]) + [] == Print(items[0]);
    }
  }

  lemma {:induction false} MembersScan(members: seq<Member>)
    requires forall i :: 0 <= i < |members| ==> Scans(members[i].key) && IjsonTree(members[i].value)
    ensures Scans(PrintMembers(members))
    decreases members
  {
    hide Print, IjsonTree, Quote, Scans;
    NothingScans();
    if members != [] {
      QuotedScans(members[0].key);
      PrintScans(members[0].value);
      AsciiScans([COLON]);
      ScansConcatenate(Quote(members[0].key), [COLON]);
      ScansConcatenate(Quote(members[0].key) + [COLON], Print(members[0].value));
      MembersScan(members[1..]);
      CommaScans(PrintMember(members[0]), PrintMembers(members[1..]));
      assert PrintMember(members[0]) + [] == PrintMember(members[0]);
    }
  }

  lemma NothingScans()
    ensures Scans([])
  {
  }

  /** Canonical text is itself in the I-JSON string domain, so hashing it is never refused. */
  lemma CanonicalTextIsIjson(heap: Heap, value: JsValue)
    requires PrintsNumerals(heap) && NumeralValue(value) && Canonical(heap, value).Accepted?
    ensures IsIjson(Canonical(heap, value).value)
  {
    hide Tree, Canonical, PrintsNumerals, Print, IjsonTree, Scans;
    AcceptsExactly(heap, value);
    TreeIsIjson(heap, value, MAX_DEPTH);
    PrintScans(Tree(heap, value, MAX_DEPTH).value);
    ScansExactlyIjson(Canonical(heap, value).value);
  }

  /** Two accepted values are hashed over the same bytes only when they stand for the same tree. */
  lemma SameBytesSameValue(a: Heap, x: JsValue, b: Heap, y: JsValue)
    requires PrintsNumerals(a) && NumeralValue(x) && PrintsNumerals(b) && NumeralValue(y)
    requires Canonical(a, x).Accepted? && Canonical(b, y).Accepted?
    requires TextEncode(Canonical(a, x).value) == TextEncode(Canonical(b, y).value)
    ensures Tree(a, x, MAX_DEPTH) == Tree(b, y, MAX_DEPTH)
  {
    CanonicalTextIsIjson(a, x);
    CanonicalTextIsIjson(b, y);
    AcceptedBytesDecideString(Canonical(a, x).value, Canonical(b, y).value);
    SameTextSameValue(a, x, b, y);
  }
}
