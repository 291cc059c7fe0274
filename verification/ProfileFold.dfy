/** Folding a sampled CPU profile into totals per frame. */
module ProfileFold {

  import opened Options

  datatype Frame = Frame(functionName: string, url: string, line: int, column: int)

  datatype Node = Node(id: int, frame: Frame, children: seq<int>)

  datatype Profile = Profile(nodes: seq<Node>, samples: seq<int>, timeDeltas: seq<int>)

  datatype Totals = Totals(selfUs: int, inclusiveUs: int)

  /** `order`: the frames in the order their totals were first made. */
  datatype Summary = Summary(sampledUs: int, order: seq<Frame>, frames: map<Frame, Totals>)

  datatype Result = Folded(summary: Summary) | UnknownNode(id: int)

  // ---- The links of a profile ---------------------------------------------------------------------

  /** Later nodes of one id replace earlier ones. */
  function NodeMap(nodes: seq<Node>): map<int, Node> {
    if nodes == [] then map[]
    else NodeMap(nodes[..|nodes| - 1])[nodes[|nodes| - 1].id := nodes[|nodes| - 1]]
  }

  function AddChildren(parents: map<int, int>, parent: int, children: seq<int>): map<int, int> {
    if children == [] then parents
    else AddChildren(parents, parent, children[..|children| - 1])[children[|children| - 1] := parent]
  }

  /** Later parents of one child replace earlier ones. */
  function ParentMap(nodes: seq<Node>): map<int, int> {
    if nodes == [] then map[]
    else
      var last := nodes[|nodes| - 1];
      AddChildren(ParentMap(nodes[..|nodes| - 1]), last.id, last.children)
  }

  function Parent(parents: map<int, int>, id: int): Option<int> {
    if id in parents then Some(parents[id]) else None
  }

  function Weight(p: Profile, index: nat): int {
    if index < |p.timeDeltas| then p.timeDeltas[index] else 0
  }

  /** The stack of a sample, innermost first: parents are followed to the root or to a repetition. */
  function Chain(nodes: map<int, Node>, parents: map<int, int>, current: Option<int>, seen: set<int>)
    : Option<seq<int>>
    decreases nodes.Keys - seen
  {
    if current.None? || current.value in seen then Some([])
    else if current.value !in nodes then None
    else
      match Chain(nodes, parents, Parent(parents, current.value), seen + {current.value})
      case None => None
      case Some(rest) => Some([current.value] + rest)
  }

  /** The k-th ancestor. */
  function Ancestor(parents: map<int, int>, id: int, k: nat): Option<int> {
    if k == 0 then Some(id)
    else
      var below := Ancestor(parents, id, k - 1);
      if below.None? then None else Parent(parents, below.value)
  }

  lemma {:induction false} ChainIsDistinct(nodes: map<int, Node>, parents: map<int, int>,
                                           current: Option<int>, seen: set<int>)
    requires Chain(nodes, parents, current, seen).Some?
    ensures
      var chain := Chain(nodes, parents, current, seen).value;
      && (forall i :: 0 <= i < |chain| ==> chain[i] in nodes && chain[i] !in seen)
      && (forall i, j :: 0 <= i < j < |chain| ==> chain[i] != chain[j])
      && (current.Some? && current.value !in seen ==> chain != [] && chain[0] == current.value)
    decreases nodes.Keys - seen
  {
    if current.Some? && current.value !in seen {
      ChainIsDistinct(nodes, parents, Parent(parents, current.value), seen + {current.value});
    }
  }

  /** Each link of the chain leads on along the chain, or back to what was seen before. */
  lemma {:induction false} ChainIsClosed(nodes: map<int, Node>, parents: map<int, int>,
                                         current: Option<int>, seen: set<int>, v: int)
    requires Chain(nodes, parents, current, seen).Some? && v in Chain(nodes, parents, current, seen).value
    ensures Parent(parents, v).Some? ==>
      Parent(parents, v).value in seen || Parent(parents, v).value in Chain(nodes, parents, current, seen).value
    decreases nodes.Keys - seen
  {
    var next := Parent(parents, current.value);
    var rest := Chain(nodes, parents, next, seen + {current.value}).value;
    if v in rest {
      ChainIsClosed(nodes, parents, next, seen + {current.value}, v);
    } else {
      ChainIsDistinct(nodes, parents, next, seen + {current.value});
    }
  }

  lemma {:induction false} AncestorsCompose(parents: map<int, int>, id: int, k: nat)
    requires Parent(parents, id).Some?
    ensures Ancestor(parents, id, k + 1) == Ancestor(parents, Parent(parents, id).value, k)
    decreases k
  {
    if k > 0 {
      AncestorsCompose(parents, id, k - 1);
    }
  }

  lemma {:induction false} ChainHoldsAncestors(nodes: map<int, Node>, parents: map<int, int>,
                                               id: int, seen: set<int>, v: int)
    requires Chain(nodes, parents, Some(id), seen).Some? && v in Chain(nodes, parents, Some(id), seen).value
    ensures exists k :: Ancestor(parents, id, k) == Some(v)
    decreases nodes.Keys - seen
  {
    if v == id {
      assert Ancestor(parents, id, 0) == Some(v);
    } else {
      var next := Parent(parents, id).value;
      ChainHoldsAncestors(nodes, parents, next, seen + {id}, v);
      var k :| Ancestor(parents, next, k) == Some(v);
      AncestorsCompose(parents, id, k);
    }
  }

  lemma {:induction false} AncestorsAreInChain(nodes: map<int, Node>, parents: map<int, int>, id: int, k: nat)
    requires Chain(nodes, parents, Some(id), {}).Some? && Ancestor(parents, id, k).Some?
    ensures Ancestor(parents, id, k).value in Chain(nodes, parents, Some(id), {}).value
    decreases k
  {
    ChainIsDistinct(nodes, parents, Some(id), {});
    if k > 0 {
      AncestorsAreInChain(nodes, parents, id, k - 1);
      ChainIsClosed(nodes, parents, Some(id), {}, Ancestor(parents, id, k - 1).value);
    }
  }

  /** The stack is the sampled node and all its ancestors, even when the links run in a circle. */
  lemma ChainIsTheAncestors(nodes: map<int, Node>, parents: map<int, int>, id: int, v: int)
    requires Chain(nodes, parents, Some(id), {}).Some?
    ensures v in Chain(nodes, parents, Some(id), {}).value <==> exists k :: Ancestor(parents, id, k) == Some(v)
  {
    if v in Chain(nodes, parents, Some(id), {}).value {
      ChainHoldsAncestors(nodes, parents, id, {}, v);
    }
    if k :| Ancestor(parents, id, k) == Some(v) {
      AncestorsAreInChain(nodes, parents, id, k);
    }
  }

  // ---- Unknown nodes --------------------------------------------------------------------------------

  /** Some node of the profile has this id. */
  predicate Named(nodes: seq<Node>, id: int) {
    exists i :: 0 <= i < |nodes| && nodes[i].id == id
  }

  lemma {:induction false} MapHoldsTheNamed(nodes: seq<Node>, id: int)
    ensures id in NodeMap(nodes) <==> Named(nodes, id)
    decreases |nodes|
  {
    if nodes != [] {
      var front := nodes[..|nodes| - 1];
      MapHoldsTheNamed(front, id);
      if Named(front, id) {
        var i :| 0 <= i < |front| && front[i].id == id;
        assert nodes[i].id == id;
      }
      if Named(nodes, id) && nodes[|nodes| - 1].id != id {
        var i :| 0 <= i < |nodes| && nodes[i].id == id;
        assert front[i].id == id;
      }
    }
  }

  ghost predicate Closed(nodes: map<int, Node>, parents: map<int, int>) {
    forall c :: c in parents ==> parents[c] in nodes
  }

  lemma {:induction false} ChildrenPointAt(parents: map<int, int>, parent: int, children: seq<int>)
    ensures forall c :: c in AddChildren(parents, parent, children) ==>
      AddChildren(parents, parent, children)[c] == parent ||
      (c in parents && AddChildren(parents, parent, children)[c] == parents[c])
    decreases |children|
  {
    if children != [] {
      ChildrenPointAt(parents, parent, children[..|children| - 1]);
    }
  }

  lemma {:induction false} FrontIsIndexed(nodes: seq<Node>)
    requires nodes != []
    ensures NodeMap(nodes[..|nodes| - 1]).Keys <= NodeMap(nodes).Keys
    ensures nodes[|nodes| - 1].id in NodeMap(nodes)
  {
  }

  /** Every link leads to a node of the profile. */
  lemma {:induction false} LinksAreClosed(nodes: seq<Node>)
    ensures Closed(NodeMap(nodes), ParentMap(nodes))
    decreases |nodes|
  {
    if nodes != [] {
      var front, last := nodes[..|nodes| - 1], nodes[|nodes| - 1];
      LinksAreClosed(front);
      FrontIsIndexed(nodes);
      ChildrenPointAt(ParentMap(front), last.id, last.children);
    }
  }

  lemma {:induction false} ClosedChain(nodes: map<int, Node>, parents: map<int, int>, id: int, seen: set<int>)
    requires Closed(nodes, parents) && id in nodes
    ensures Chain(nodes, parents, Some(id), seen).Some?
    decreases nodes.Keys - seen
  {
    if id !in seen && id in parents {
      ClosedChain(nodes, parents, parents[id], seen + {id});
    }
  }

  // ---- The totals ------------------------------------------------------------------------------------

  function StackOf(p: Profile, index: nat): Option<seq<int>>
    requires index < |p.samples|
  {
    Chain(NodeMap(p.nodes), ParentMap(p.nodes), Some(p.samples[index]), {})
  }

  predicate AllKnown(p: Profile, n: nat)
    requires n <= |p.samples|
  {
    forall i :: 0 <= i < n ==> StackOf(p, i).Some?
  }

  /** A stack can be walked exactly when the sampled id names a node. */
  lemma StackIsWalkedExactly(p: Profile, index: nat)
    requires index < |p.samples|
    ensures StackOf(p, index).Some? <==> Named(p.nodes, p.samples[index])
  {
    MapHoldsTheNamed(p.nodes, p.samples[index]);
    LinksAreClosed(p.nodes);
    if p.samples[index] in NodeMap(p.nodes) {
      ClosedChain(NodeMap(p.nodes), ParentMap(p.nodes), p.samples[index], {});
    }
  }

  /** The first sampled id without a node. */
  predicate FirstUnnamed(p: Profile, index: nat) {
    index < |p.samples| && !Named(p.nodes, p.samples[index]) &&
    forall i :: 0 <= i < index ==> Named(p.nodes, p.samples[i])
  }

  predicate OnStack(nodes: map<int, Node>, stack: seq<int>, f: Frame) {
    exists i :: 0 <= i < |stack| && stack[i] in nodes && nodes[stack[i]].frame == f
  }

  function Sampled(p: Profile, n: nat): int {
    if n == 0 then 0 else Sampled(p, n - 1) + Weight(p, n - 1)
  }

  /** The weight of the samples taken in a frame. */
  function Self(p: Profile, n: nat, f: Frame): int
    requires n <= |p.samples|
  {
    var nodes := NodeMap(p.nodes);
    if n == 0 then 0
    else
      Self(p, n - 1, f) +
      (if p.samples[n - 1] in nodes && nodes[p.samples[n - 1]].frame == f then Weight(p, n - 1) else 0)
  }

  /** The weight of the samples whose stack contains a frame, each counted once. */
  function Inclusive(p: Profile, n: nat, f: Frame): int
    requires n <= |p.samples| && AllKnown(p, n)
  {
    if n == 0 then 0
    else
      Inclusive(p, n - 1, f) +
      (if OnStack(NodeMap(p.nodes), StackOf(p, n - 1).value, f) then Weight(p, n - 1) else 0)
  }

  function SumSelf(p: Profile, n: nat, order: seq<Frame>): int
    requires n <= |p.samples|
  {
    if order == [] then 0 else SumSelf(p, n, order[..|order| - 1]) + Self(p, n, order[|order| - 1])
  }

  predicate Distinct(order: seq<Frame>) {
    forall i, j :: 0 <= i < j < |order| ==> order[i] != order[j]
  }

  lemma {:induction false} OneFrameGains(p: Profile, n: nat, order: seq<Frame>)
    requires n < |p.samples| && p.samples[n] in NodeMap(p.nodes) && Distinct(order)
    ensures SumSelf(p, n + 1, order) ==
      SumSelf(p, n, order) + (if NodeMap(p.nodes)[p.samples[n]].frame in order then Weight(p, n) else 0)
    decreases |order|
  {
    hide NodeMap;
    if order != [] {
      OneFrameGains(p, n, order[..|order| - 1]);
      assert order == order[..|order| - 1] + [order[|order| - 1]];
    }
  }

  lemma {:induction false} NothingSampled(p: Profile, order: seq<Frame>)
    ensures SumSelf(p, 0, order) == 0
    decreases |order|
  {
    if order != [] {
      NothingSampled(p, order[..|order| - 1]);
    }
  }

  /** Over any list of all the frames, the self weights sum to the sampled time. */
  lemma {:induction false} SelfSumsToSampled(p: Profile, n: nat, order: seq<Frame>)
    requires n <= |p.samples| && Distinct(order)
    requires forall i :: 0 <= i < n ==>
      p.samples[i] in NodeMap(p.nodes) && NodeMap(p.nodes)[p.samples[i]].frame in order
    ensures SumSelf(p, n, order) == Sampled(p, n)
    decreases n
  {
    hide NodeMap;
    if n == 0 {
      NothingSampled(p, order);
    } else {
      SelfSumsToSampled(p, n - 1, order);
      OneFrameGains(p, n - 1, order);
    }
  }

  /** With no negative delta, self is at most inclusive and inclusive at most the sampled time. */
  lemma {:induction false} SelfWithinInclusive(p: Profile, n: nat, f: Frame)
    requires n <= |p.samples| && AllKnown(p, n)
    requires forall i :: 0 <= i < |p.timeDeltas| ==> p.timeDeltas[i] >= 0
    ensures 0 <= Self(p, n, f) <= Inclusive(p, n, f) <= Sampled(p, n)
    decreases n
  {
    hide NodeMap, ParentMap;
    if n > 0 {
      SelfWithinInclusive(p, n - 1, f);
      var nodes := NodeMap(p.nodes);
      var id := p.samples[n - 1];
      var stack := StackOf(p, n - 1).value;
      ChainIsDistinct(nodes, ParentMap(p.nodes), Some(id), {});
      assert stack[0] == id;
    }
  }

  // ---- The loops ---------------------------------------------------------------------------------------

  method LinkParents(nodes: seq<Node>) returns (parents: map<int, int>)
    ensures parents == ParentMap(nodes)
  {
    parents := map[];
    for i := 0 to |nodes|
      invariant parents == ParentMap(nodes[..i])
    {
      var children := nodes[i].children;
      for k := 0 to |children|
        invariant parents == AddChildren(ParentMap(nodes[..i]), nodes[i].id, children[..k])
      {
        assert children[..k + 1][..k] == children[..k];
        parents := parents[children[k] := nodes[i].id];
      }
      assert nodes[..i + 1][..i] == nodes[..i] && children[..|children|] == children;
    }
    assert nodes[..|nodes|] == nodes;
  }

  method IndexNodes(nodes: seq<Node>) returns (index: map<int, Node>)
    ensures index == NodeMap(nodes)
  {
    index := map[];
    for i := 0 to |nodes|
      invariant index == NodeMap(nodes[..i])
    {
      assert nodes[..i + 1][..i] == nodes[..i];
      index := index[nodes[i].id := nodes[i]];
    }
    assert nodes[..|nodes|] == nodes;
  }

  function SelfOf(frames: map<Frame, Totals>, f: Frame): int {
    if f in frames then frames[f].selfUs else 0
  }

  function InclusiveOf(frames: map<Frame, Totals>, f: Frame): int {
    if f in frames then frames[f].inclusiveUs else 0
  }

  ghost predicate Lists(order: seq<Frame>, frames: map<Frame, Totals>) {
    Distinct(order) && forall f :: f in order <==> f in frames
  }

  /** The totals of one frame, made when first met, gain what a node contributes. */
  method Credit(order0: seq<Frame>, frames0: map<Frame, Totals>, frame: Frame, selfUs: int, inclusiveUs: int)
    returns (order: seq<Frame>, frames: map<Frame, Totals>)
    requires Lists(order0, frames0)
    ensures Lists(order, frames) && order0 <= order
    ensures forall f :: f in frames <==> f in frames0 || f == frame
    ensures forall f :: SelfOf(frames, f) == SelfOf(frames0, f) + (if f == frame then selfUs else 0)
    ensures forall f :: InclusiveOf(frames, f) == InclusiveOf(frames0, f) + (if f == frame then inclusiveUs else 0)
  {
    var totals := if frame in frames0 then frames0[frame] else Totals(0, 0);
    order := if frame in frames0 then order0 else order0 + [frame];
    frames := frames0[frame := Totals(totals.selfUs + selfUs, totals.inclusiveUs + inclusiveUs)];
  }

  lemma ChainStep(nodes: map<int, Node>, parents: map<int, int>, at: int, seen: set<int>)
    requires at !in seen
    ensures at !in nodes ==> Chain(nodes, parents, Some(at), seen).None?
    ensures at in nodes ==>
      var rest := Chain(nodes, parents, Parent(parents, at), seen + {at});
      Chain(nodes, parents, Some(at), seen) == if rest.None? then None else Some([at] + rest.value)
  {
  }

  lemma ChainEnds(nodes: map<int, Node>, parents: map<int, int>, current: Option<int>, seen: set<int>)
    requires current.None? || current.value in seen
    ensures Chain(nodes, parents, current, seen) == Some([])
  {
  }

  /** One sample's stack is walked from the sampled node up and its weight added to the totals. */
  method AddSample(nodes: map<int, Node>, parents: map<int, int>, id: int, weight: int,
                   order0: seq<Frame>, frames0: map<Frame, Totals>)
    returns (order: seq<Frame>, frames: map<Frame, Totals>, unknown: Option<int>)
    requires Lists(order0, frames0)
    ensures unknown.Some? <==> Chain(nodes, parents, Some(id), {}).None?
    ensures unknown.Some? ==> unknown.value !in nodes
    ensures unknown.Some? && Closed(nodes, parents) ==> unknown.value == id
    ensures unknown.None? ==>
      var stack := Chain(nodes, parents, Some(id), {}).value;
      && Lists(order, frames) && order0 <= order && id in nodes
      && (forall f :: f in frames <==> f in frames0 || OnStack(nodes, stack, f))
      && (forall f :: SelfOf(frames, f) == SelfOf(frames0, f) + (if f == nodes[id].frame then weight else 0))
      && (forall f :: InclusiveOf(frames, f) ==
            InclusiveOf(frames0, f) + (if OnStack(nodes, stack, f) then weight else 0))
  {
    hide Chain, SelfOf, InclusiveOf, Lists, OnStack, Closed;
    NothingOnStack(nodes);
    order, frames, unknown := order0, frames0, None;
    var seenFrames: set<Frame> := {};
    var seenNodes: set<int> := {};
    var current: Option<int> := Some(id);
    ghost var walked: seq<int> := [];
    ghost var all := Chain(nodes, parents, Some(id), {});
    assert all.Some? ==> walked + all.value == all.value;
    while current.Some? && current.value !in seenNodes
      invariant seenNodes == set v | v in walked
      invariant seenNodes <= nodes.Keys
      invariant current.Some? && Closed(nodes, parents) ==> current.value == id || current.value in nodes
      invariant forall f :: f in seenFrames <==> OnStack(nodes, walked, f)
      invariant walked == [] ==> current == Some(id) && seenNodes == {}
      invariant walked != [] ==> walked[0] == id && id in nodes && id in seenNodes
      invariant Lists(order, frames) && order0 <= order
      invariant forall f :: f in frames <==> f in frames0 || f in seenFrames
      invariant forall f ::
        SelfOf(frames, f) ==
        SelfOf(frames0, f) + (if walked != [] && f == nodes[id].frame then weight else 0)
      invariant forall f ::
        InclusiveOf(frames, f) ==
        InclusiveOf(frames0, f) + (if f in seenFrames then weight else 0)
      invariant
        var rest := Chain(nodes, parents, current, seenNodes);
        all == if rest.None? then None else Some(walked + rest.value)
      decreases nodes.Keys - seenNodes
    {
      var at := current.value;
      ChainStep(nodes, parents, at, seenNodes);
      if at !in nodes {
        unknown := Some(at);
        return;
      }
      ghost var earlier := walked;
      seenNodes := seenNodes + {at};
      var frame := nodes[at].frame;
      var selfUs := if at == id then weight else 0;
      var inclusiveUs := if frame in seenFrames then 0 else weight;
      order, frames := Credit(order, frames, frame, selfUs, inclusiveUs);
      seenFrames := seenFrames + {frame};
      walked := walked + [at];
      OneDeeper(nodes, earlier, at);
      current := Parent(parents, at);
      LinkLeadsOn(nodes, parents, at);
      ghost var rest := Chain(nodes, parents, current, seenNodes);
      assert rest.Some? ==> earlier + ([at] + rest.value) == walked + rest.value;
    }
    ChainEnds(nodes, parents, current, seenNodes);
    assert walked + [] == walked;
  }

  lemma LinkLeadsOn(nodes: map<int, Node>, parents: map<int, int>, at: int)
    ensures Closed(nodes, parents) && Parent(parents, at).Some? ==> Parent(parents, at).value in nodes
  {
  }

  lemma NothingOnStack(nodes: map<int, Node>)
    ensures forall f :: !OnStack(nodes, [], f)
  {
  }

  lemma OneDeeper(nodes: map<int, Node>, walked: seq<int>, at: int)
    requires at in nodes
    ensures forall f :: OnStack(nodes, walked + [at], f) <==> OnStack(nodes, walked, f) || f == nodes[at].frame
  {
    var longer := walked + [at];
    assert longer[|walked|] == at;
    forall f | OnStack(nodes, walked, f) ensures OnStack(nodes, longer, f) {
      var i :| 0 <= i < |walked| && walked[i] in nodes && nodes[walked[i]].frame == f;
      assert longer[i] == walked[i];
    }
  }

  lemma NoTotals()
    ensures Lists([], map[]) && forall f :: SelfOf(map[], f) == InclusiveOf(map[], f) == 0
  {
  }

  lemma Listed(order: seq<Frame>, frames: map<Frame, Totals>)
    requires Lists(order, frames)
    ensures Distinct(order) && forall f :: f in frames ==> f in order
  {
  }

  method SummarizeProfile(p: Profile) returns (result: Result)
    ensures result.UnknownNode? <==> exists i :: 0 <= i < |p.samples| && !Named(p.nodes, p.samples[i])
    ensures result.UnknownNode? ==> exists i: nat :: FirstUnnamed(p, i) && result.id == p.samples[i]
    ensures result.Folded? ==> AllKnown(p, |p.samples|)
    ensures result.Folded? ==>
      var s := result.summary;
      && s.sampledUs == Sampled(p, |p.samples|) && Lists(s.order, s.frames)
      && (forall f :: SelfOf(s.frames, f) == Self(p, |p.samples|, f))
      && (forall f :: InclusiveOf(s.frames, f) == Inclusive(p, |p.samples|, f))
      && SumSelf(p, |p.samples|, s.order) == s.sampledUs
  {
    hide Chain, NodeMap, ParentMap, OnStack, Named, Closed, SelfOf, InclusiveOf, SumSelf, Lists;
    NoTotals();
    var nodes := IndexNodes(p.nodes);
    var parents := LinkParents(p.nodes);
    LinksAreClosed(p.nodes);
    var order: seq<Frame> := [];
    var frames: map<Frame, Totals> := map[];
    var sampledUs := 0;
    for index := 0 to |p.samples|
      invariant forall i :: 0 <= i < index ==> Named(p.nodes, p.samples[i])
      invariant AllKnown(p, index) && sampledUs == Sampled(p, index) && Lists(order, frames)
      invariant forall f :: SelfOf(frames, f) == Self(p, index, f)
      invariant forall f :: InclusiveOf(frames, f) == Inclusive(p, index, f)
      invariant forall i :: 0 <= i < index ==> p.samples[i] in nodes && nodes[p.samples[i]].frame in frames
    {
      var weight := Weight(p, index);
      sampledUs := sampledUs + weight;
      StackIsWalkedExactly(p, index);
      var unknown;
      order, frames, unknown := AddSample(nodes, parents, p.samples[index], weight, order, frames);
      if unknown.Some? {
        assert StackOf(p, index).None?;
        assert FirstUnnamed(p, index) && unknown.value == p.samples[index];
        return UnknownNode(unknown.value);
      }
      SampledFrameIsOnStack(p, index);
    }
    Listed(order, frames);
    SelfSumsToSampled(p, |p.samples|, order);
    return Folded(Summary(sampledUs, order, frames));
  }

  lemma SampledFrameIsOnStack(p: Profile, index: nat)
    requires index < |p.samples| && StackOf(p, index).Some?
    ensures p.samples[index] in NodeMap(p.nodes)
    ensures OnStack(NodeMap(p.nodes), StackOf(p, index).value, NodeMap(p.nodes)[p.samples[index]].frame)
  {
    ChainIsDistinct(NodeMap(p.nodes), ParentMap(p.nodes), Some(p.samples[index]), {});
    assert StackOf(p, index).value[0] == p.samples[index];
  }
}
