/**
 The publisher and collector protocol that the expected storage journals pin down: a publisher
 replaces the head's manifest with a compare-and-swap, a collector fences the head before it
 deletes unreachable artifacts.

 `FenceModel` has any number of publishers and collectors over one collection, stopped at any
 call; `FenceRuns` proves that no run deletes what the head reaches.
 */
module FenceModel {

  import opened Options

  const MAX_SAFE_INTEGER: nat := 9007199254740991

  /** An artifact key: its kind, the attempt that wrote it and the hash of its body. */
  datatype Artifact =
    | Chunk(incarnation: nat, digest: nat)
    | Manifest(incarnation: nat, digest: nat)

  datatype Head = Head(etag: nat, epoch: nat, snapshot: Option<Artifact>)

  /** What `gc/pending.json` authorises to delete, if anything. */
  datatype Authority = Authority(epoch: nat, fenceEtag: nat, keys: set<Artifact>)

  datatype Pending = Pending(etag: nat, authority: Option<Authority>)

  /** `captured`: the chunks of the manifest the publisher read, which it may reuse. */
  datatype Publisher =
    | PublisherIdle
    | HeadCaptured(etag: nat, snapshot: Option<Artifact>)
    | Writing(etag: nat, captured: set<Artifact>, incarnation: nat, written: set<Artifact>)
    | Ready(etag: nat, manifest: Artifact)

  datatype Collector =
    | CollectorIdle
    | Selected(keys: set<Artifact>, pendingEtag: nat)
    | HeadRead(keys: set<Artifact>, pendingEtag: nat, head: Head)
    | Checked(keys: set<Artifact>, pendingEtag: nat, head: Head)
    | Fenced(authority: Authority, pendingEtag: nat)
    | Deleting(authority: Authority, pendingEtag: nat)

  /**
   `store` gives each stored artifact the chunks it refers to; `used` are the incarnations minted
   so far, `etags` the number of versions of the head and of the pending record written so far.
   */
  datatype World = World(
    head: Head,
    pending: Pending,
    store: map<Artifact, set<Artifact>>,
    used: set<nat>,
    etags: nat,
    publishers: seq<Publisher>,
    collectors: seq<Collector>)

  datatype Event =
    | CaptureHead(publisher: nat)
    | OpenManifest(publisher: nat, incarnation: nat)
    | PutChunk(publisher: nat, digest: nat)
    | PutManifest(publisher: nat, digest: nat, reused: set<Artifact>)
    | SwapHead(publisher: nat)
    | CrashPublisher(publisher: nat)
    | Discover(collector: nat, keys: set<Artifact>)
    | Resume(collector: nat)
    | ReadHead(collector: nat)
    | CheckManifest(collector: nat)
    | Fence(collector: nat)
    | Persist(collector: nat)
    | Delete(collector: nat, key: Artifact)
    | Finish(collector: nat)
    | CrashCollector(collector: nat)

  predicate Allowed(w: World, event: Event) {
    match event
    case CaptureHead(i) => i < |w.publishers| && w.publishers[i].PublisherIdle?
    case OpenManifest(i, incarnation) =>
      i < |w.publishers| && w.publishers[i].HeadCaptured? && incarnation !in w.used
    case PutChunk(i, _) => i < |w.publishers| && w.publishers[i].Writing?
    case PutManifest(i, _, reused) =>
      i < |w.publishers| && w.publishers[i].Writing? && reused <= w.publishers[i].captured
    case SwapHead(i) => i < |w.publishers| && w.publishers[i].Ready?
    case CrashPublisher(i) => i < |w.publishers|
    case Discover(j, keys) =>
      j < |w.collectors| && w.collectors[j].CollectorIdle? && w.pending.authority.None? && keys <= w.store.Keys
    case Resume(j) => j < |w.collectors| && w.collectors[j].CollectorIdle? && w.pending.authority.Some?
    case ReadHead(j) => j < |w.collectors| && w.collectors[j].Selected?
    case CheckManifest(j) => j < |w.collectors| && w.collectors[j].HeadRead?
    case Fence(j) => j < |w.collectors| && w.collectors[j].Checked?
    case Persist(j) => j < |w.collectors| && w.collectors[j].Fenced?
    case Delete(j, key) =>
      j < |w.collectors| && w.collectors[j].Deleting? && key in w.collectors[j].authority.keys
    case Finish(j) => j < |w.collectors| && w.collectors[j].Deleting?
    case CrashCollector(j) => j < |w.collectors|
  }

  function RefsOf(store: map<Artifact, set<Artifact>>, snapshot: Option<Artifact>): set<Artifact> {
    if snapshot.Some? && snapshot.value in store then store[snapshot.value] else {}
  }

  /** The manifest of a head and every chunk it refers to. */
  function LiveOf(store: map<Artifact, set<Artifact>>, snapshot: Option<Artifact>): set<Artifact> {
    (if snapshot.Some? then {snapshot.value} else {}) + RefsOf(store, snapshot)
  }

  function Live(w: World): set<Artifact> {
    LiveOf(w.store, w.head.snapshot)
  }

  /** Create-if-absent: the body stored first stays. */
  function Create(store: map<Artifact, set<Artifact>>, key: Artifact, refs: set<Artifact>)
    : map<Artifact, set<Artifact>>
  {
    if key in store then store else store[key := refs]
  }

  function SetPublisher(w: World, i: nat, p: Publisher): World
    requires i < |w.publishers|
  {
    w.(publishers := w.publishers[i := p])
  }

  function SetCollector(w: World, j: nat, c: Collector): World
    requires j < |w.collectors|
  {
    w.(collectors := w.collectors[j := c])
  }

  /** A head may be opened when it has no manifest or its manifest is still there. */
  predicate Opens(w: World, snapshot: Option<Artifact>) {
    snapshot.None? || snapshot.value in w.store
  }

  function PublisherStep(w: World, event: Event): World
    requires Allowed(w, event)
    requires event.CaptureHead? || event.OpenManifest? || event.PutChunk? || event.PutManifest? ||
             event.SwapHead? || event.CrashPublisher?
  {
    var i := event.publisher;
    var p := w.publishers[i];
    match event
    case CaptureHead(_) => SetPublisher(w, i, HeadCaptured(w.head.etag, w.head.snapshot))
    case OpenManifest(_, incarnation) =>
      if Opens(w, p.snapshot) then
        SetPublisher(w.(used := w.used + {incarnation}), i,
                     Writing(p.etag, RefsOf(w.store, p.snapshot), incarnation, {}))
      else SetPublisher(w, i, PublisherIdle)
    case PutChunk(_, digest) =>
      var key := Chunk(p.incarnation, digest);
      SetPublisher(w.(store := Create(w.store, key, {})), i, p.(written := p.written + {key}))
    case PutManifest(_, digest, reused) =>
      var key := Manifest(p.incarnation, digest);
      SetPublisher(w.(store := Create(w.store, key, p.written + reused)), i, Ready(p.etag, key))
    case SwapHead(_) =>
      if p.etag == w.head.etag then
        SetPublisher(w.(head := Head(w.etags, w.head.epoch, Some(p.manifest)), etags := w.etags + 1),
                     i, PublisherIdle)
      else SetPublisher(w, i, PublisherIdle)
    case CrashPublisher(_) => SetPublisher(w, i, PublisherIdle)
  }

  function CollectorStep(w: World, event: Event): World
    requires Allowed(w, event)
    requires !(event.CaptureHead? || event.OpenManifest? || event.PutChunk? || event.PutManifest? ||
               event.SwapHead? || event.CrashPublisher?)
  {
    var j := event.collector;
    var c := w.collectors[j];
    match event
    case Discover(_, keys) => SetCollector(w, j, Selected(keys, w.pending.etag))
    case Resume(_) => SetCollector(w, j, Selected(w.pending.authority.value.keys, w.pending.etag))
    case ReadHead(_) => SetCollector(w, j, HeadRead(c.keys, c.pendingEtag, w.head))
    case CheckManifest(_) =>
      if Opens(w, c.head.snapshot) then
        SetCollector(w, j, Checked(c.keys - LiveOf(w.store, c.head.snapshot), c.pendingEtag, c.head))
      else SetCollector(w, j, CollectorIdle)
    case Fence(_) =>
      if c.keys == {} || c.head.epoch >= MAX_SAFE_INTEGER then SetCollector(w, j, CollectorIdle)
      else if c.head.etag == w.head.etag then
        var fenced := Head(w.etags, c.head.epoch + 1, c.head.snapshot);
        SetCollector(w.(head := fenced, etags := w.etags + 1), j,
                     Fenced(Authority(fenced.epoch, fenced.etag, c.keys), c.pendingEtag))
      else SetCollector(w, j, Selected(c.keys, c.pendingEtag))
    case Persist(_) =>
      if c.pendingEtag == w.pending.etag then
        SetCollector(w.(pending := Pending(w.etags, Some(c.authority)), etags := w.etags + 1),
                     j, Deleting(c.authority, w.etags))
      else SetCollector(w, j, CollectorIdle)
    case Delete(_, key) =>
      SetCollector(w.(store := w.store - {key}), j, c.(authority := c.authority.(keys := c.authority.keys - {key})))
    case Finish(_) =>
      if c.pendingEtag == w.pending.etag then
        var rest := if c.authority.keys == {} then None else Some(c.authority);
        SetCollector(w.(pending := Pending(w.etags, rest), etags := w.etags + 1), j, CollectorIdle)
      else SetCollector(w, j, CollectorIdle)
    case CrashCollector(_) => SetCollector(w, j, CollectorIdle)
  }

  function Next(w: World, event: Event): World
    requires Allowed(w, event)
  {
    if event.CaptureHead? || event.OpenManifest? || event.PutChunk? || event.PutManifest? ||
       event.SwapHead? || event.CrashPublisher?
    then PublisherStep(w, event)
    else CollectorStep(w, event)
  }

  predicate Possible(w: World, events: seq<Event>)
    decreases |events|
  {
    events == [] || (Allowed(w, events[0]) && Possible(Next(w, events[0]), events[1..]))
  }

  function After(w: World, events: seq<Event>): World
    requires Possible(w, events)
    decreases |events|
  {
    if events == [] then w else After(Next(w, events[0]), events[1..])
  }

  // ---- What every run keeps ---------------------------------------------------------------------

  /** Every attempt that may still win has captured the present head and writes keys of its own. */
  predicate PublisherOk(w: World, p: Publisher) {
    match p
    case PublisherIdle => true
    case HeadCaptured(etag, snapshot) => etag < w.etags && (etag == w.head.etag ==> snapshot == w.head.snapshot)
    case Writing(etag, captured, incarnation, written) =>
      && etag < w.etags && incarnation in w.used
      && (forall key :: key in written ==> key.incarnation == incarnation)
      && (etag == w.head.etag ==> captured <= Live(w) && written <= w.store.Keys)
    case Ready(etag, manifest) =>
      && etag < w.etags && manifest.incarnation in w.used
      && (etag == w.head.etag ==> manifest in w.store && w.store[manifest] <= w.store.Keys)
  }

  /** What an attempt would make live if it won. */
  function Intended(w: World, p: Publisher): set<Artifact> {
    match p
    case PublisherIdle => {}
    case HeadCaptured(_, _) => {}
    case Writing(_, captured, _, written) => captured + written
    case Ready(_, manifest) => LiveOf(w.store, Some(manifest))
  }

  /** Minted by an attempt in progress. */
  predicate Mints(p: Publisher, incarnation: nat) {
    p.Writing? && p.incarnation == incarnation
  }

  /** Never to be reached again: unreachable now, and not to be made reachable by any attempt. */
  predicate Dead(w: World, key: Artifact) {
    && key !in Live(w) && key.incarnation in w.used
    && forall i :: 0 <= i < |w.publishers| && Viable(w, w.publishers[i]) ==>
         key !in Intended(w, w.publishers[i]) && !Mints(w.publishers[i], key.incarnation)
  }

  predicate Viable(w: World, p: Publisher) {
    (p.HeadCaptured? || p.Writing? || p.Ready?) && p.etag == w.head.etag
  }

  predicate AllDead(w: World, keys: set<Artifact>) {
    forall key :: key in keys ==> Dead(w, key)
  }

  predicate UsedKeys(w: World, keys: set<Artifact>) {
    forall key :: key in keys ==> key.incarnation in w.used
  }

  predicate CollectorOk(w: World, c: Collector) {
    match c
    case CollectorIdle => true
    case Selected(keys, pendingEtag) => UsedKeys(w, keys)
    case HeadRead(keys, pendingEtag, head) =>
      UsedKeys(w, keys) && head.etag < w.etags && (head.etag == w.head.etag ==> head == w.head)
    case Checked(keys, pendingEtag, head) =>
      UsedKeys(w, keys) && head.etag < w.etags && (head.etag == w.head.etag ==> head == w.head && keys !! Live(w))
    case Fenced(authority, pendingEtag) => AllDead(w, authority.keys)
    case Deleting(authority, pendingEtag) => AllDead(w, authority.keys)
  }

  /** Attempts in progress have an incarnation each, under which no manifest is stored yet. */
  ghost predicate OwnIncarnations(w: World) {
    && (forall i, j :: 0 <= i < j < |w.publishers| && w.publishers[i].Writing? && w.publishers[j].Writing? ==>
          w.publishers[i].incarnation != w.publishers[j].incarnation)
    && (forall i, key: Artifact ::
          0 <= i < |w.publishers| && Mints(w.publishers[i], key.incarnation) && key in w.store ==> key.Chunk?)
  }

  /** Whatever the head reaches is stored. */
  predicate Intact(w: World) {
    Live(w) <= w.store.Keys
  }

  ghost predicate Invariant(w: World) {
    && Intact(w)
    && w.head.etag < w.etags
    && UsedKeys(w, w.store.Keys)
    && OwnIncarnations(w)
    && (forall i :: 0 <= i < |w.publishers| ==> PublisherOk(w, w.publishers[i]))
    && (forall j :: 0 <= j < |w.collectors| ==> CollectorOk(w, w.collectors[j]))
    && (w.pending.authority.Some? ==> AllDead(w, w.pending.authority.value.keys))
  }

  /** A stored collection before anyone moves, with nothing authorised. */
  ghost predicate Initial(w: World) {
    && Intact(w) && w.head.etag < w.etags && w.pending.etag < w.etags && w.pending.authority.None?
    && UsedKeys(w, w.store.Keys)
    && (forall i :: 0 <= i < |w.publishers| ==> w.publishers[i].PublisherIdle?)
    && (forall j :: 0 <= j < |w.collectors| ==> w.collectors[j].CollectorIdle?)
  }
}

module FenceRuns {

  import opened Options
  import opened FenceModel

  type Store = map<Artifact, set<Artifact>>

  /** Nothing stored before is lost or changed. */
  predicate Grows(before: Store, after: Store) {
    forall key :: key in before ==> key in after && after[key] == before[key]
  }

  /** What the move from one world to another must not disturb. */
  ghost predicate Steady(w: World, v: World) {
    && w.used <= v.used && w.etags <= v.etags
    && ((v.head == w.head && Live(v) == Live(w)) || v.head.etag == w.etags < v.etags)
    && forall key :: Dead(w, key) ==> Dead(v, key)
  }

  lemma CollectorsSteady(w: World, v: World)
    requires Invariant(w) && Steady(w, v) && v.collectors == w.collectors && v.pending == w.pending
    ensures forall j :: 0 <= j < |v.collectors| ==> CollectorOk(v, v.collectors[j])
    ensures v.pending.authority.Some? ==> AllDead(v, v.pending.authority.value.keys)
  {
  }

  // ---- Publishers --------------------------------------------------------------------------------

  lemma GrowsKeepsLive(w: World, store: Store)
    requires Intact(w) && Grows(w.store, store)
    ensures LiveOf(store, w.head.snapshot) == Live(w)
  {
  }

  lemma GrowsKeepsPublisher(w: World, v: World, p: Publisher)
    requires PublisherOk(w, p) && Grows(w.store, v.store) && v.head == w.head && Live(v) == Live(w)
    requires w.used <= v.used && w.etags <= v.etags
    ensures PublisherOk(v, p)
  {
  }

  /** One publisher moves and the store only grows. */
  lemma PublisherMoves(w: World, i: nat, p: Publisher, store: Store, used: set<nat>)
    requires Invariant(w) && i < |w.publishers| && Grows(w.store, store) && w.used <= used
    requires var v := SetPublisher(w.(store := store, used := used), i, p);
      PublisherOk(v, p) && UsedKeys(v, store.Keys) && OwnIncarnations(v) &&
      (Viable(v, p) ==> forall key :: Dead(w, key) ==> key !in Intended(v, p) && !Mints(p, key.incarnation))
    ensures Invariant(SetPublisher(w.(store := store, used := used), i, p))
  {
    hide CollectorOk, OwnIncarnations, UsedKeys, Intended, Mints;
    var v := SetPublisher(w.(store := store, used := used), i, p);
    GrowsKeepsLive(w, store);
    assert Live(v) == Live(w);
    forall k | 0 <= k < |v.publishers| ensures PublisherOk(v, v.publishers[k]) {
      if k != i {
        GrowsKeepsPublisher(w, v, w.publishers[k]);
      }
    }
    forall key | Dead(w, key) ensures Dead(v, key) {
      StaysDead(w, v, i, key);
    }
    CollectorsSteady(w, v);
  }

  lemma StaysDead(w: World, v: World, i: nat, key: Artifact)
    requires Invariant(w) && i < |w.publishers| && Dead(w, key)
    requires |v.publishers| == |w.publishers| && v.head == w.head && Live(v) == Live(w) && w.used <= v.used
    requires Grows(w.store, v.store)
    requires forall k :: 0 <= k < |w.publishers| && k != i ==> v.publishers[k] == w.publishers[k]
    requires Viable(v, v.publishers[i]) ==>
               key !in Intended(v, v.publishers[i]) && !Mints(v.publishers[i], key.incarnation)
    ensures Dead(v, key)
  {
  }

  lemma CreateGrows(store: Store, key: Artifact, refs: set<Artifact>)
    ensures Grows(store, Create(store, key, refs))
  {
  }

  lemma CaptureKeeps(w: World, i: nat)
    requires Invariant(w) && Allowed(w, CaptureHead(i))
    ensures Invariant(Next(w, CaptureHead(i)))
  {
    hide CollectorOk;
    PublisherMoves(w, i, HeadCaptured(w.head.etag, w.head.snapshot), w.store, w.used);
  }

  lemma RetireKeeps(w: World, i: nat)
    requires Invariant(w) && i < |w.publishers|
    ensures Invariant(SetPublisher(w, i, PublisherIdle))
  {
  }

  lemma OpenKeeps(w: World, i: nat, incarnation: nat)
    requires Invariant(w) && Allowed(w, OpenManifest(i, incarnation)) && Opens(w, w.publishers[i].snapshot)
    ensures Invariant(Next(w, OpenManifest(i, incarnation)))
  {
    hide CollectorOk;
    var p := w.publishers[i];
    assert PublisherOk(w, p);
    var writing := Writing(p.etag, RefsOf(w.store, p.snapshot), incarnation, {});
    var used := w.used + {incarnation};
    var v := SetPublisher(w.(used := used), i, writing);
    forall k | 0 <= k < |w.publishers| && k != i && w.publishers[k].Writing?
      ensures w.publishers[k].incarnation != incarnation
    {
      assert PublisherOk(w, w.publishers[k]);
    }
    assert OwnIncarnations(v);
    PublisherMoves(w, i, writing, w.store, used);
  }

  lemma ChunkKeeps(w: World, i: nat, digest: nat)
    requires Invariant(w) && Allowed(w, PutChunk(i, digest))
    ensures Invariant(Next(w, PutChunk(i, digest)))
  {
    hide CollectorOk;
    var p := w.publishers[i];
    assert PublisherOk(w, p);
    var key := Chunk(p.incarnation, digest);
    var store := Create(w.store, key, {});
    CreateGrows(w.store, key, {});
    var more := p.(written := p.written + {key});
    var v := SetPublisher(w.(store := store), i, more);
    GrowsKeepsLive(w, store);
    assert OwnIncarnations(v);
    if Viable(v, more) {
      forall k | Dead(w, k) ensures k !in Intended(v, more) && !Mints(more, k.incarnation) {
        assert Viable(w, p);
      }
    }
    PublisherMoves(w, i, more, store, w.used);
  }

  lemma ManifestKeeps(w: World, i: nat, digest: nat, reused: set<Artifact>)
    requires Invariant(w) && Allowed(w, PutManifest(i, digest, reused))
    ensures Invariant(Next(w, PutManifest(i, digest, reused)))
  {
    hide CollectorOk;
    var p := w.publishers[i];
    assert PublisherOk(w, p);
    var key := Manifest(p.incarnation, digest);
    assert key !in w.store;
    var store := Create(w.store, key, p.written + reused);
    CreateGrows(w.store, key, p.written + reused);
    var ready := Ready(p.etag, key);
    var v := SetPublisher(w.(store := store), i, ready);
    assert OwnIncarnations(v);
    if Viable(v, ready) {
      assert reused <= Live(w) <= w.store.Keys;
      forall k | Dead(w, k) ensures k !in Intended(v, ready) && !Mints(ready, k.incarnation) {
        assert Viable(w, p);
        assert Mints(p, p.incarnation);
      }
    }
    PublisherMoves(w, i, ready, store, w.used);
  }

  /** A new head leaves every other attempt on an old ETag. */
  lemma SwapKeeps(w: World, i: nat)
    requires Invariant(w) && Allowed(w, SwapHead(i)) && w.publishers[i].etag == w.head.etag
    ensures Invariant(Next(w, SwapHead(i)))
  {
    hide CollectorOk;
    var p := w.publishers[i];
    var v := Next(w, SwapHead(i));
    assert PublisherOk(w, p) && Viable(w, p);
    assert Live(v) == Intended(w, p);
    forall k | 0 <= k < |v.publishers| ensures PublisherOk(v, v.publishers[k]) && !Viable(v, v.publishers[k]) {
      assert PublisherOk(w, w.publishers[k]);
    }
    CollectorsSteady(w, v);
  }

  // ---- Collectors -----------------------------------------------------------------------------------

  /** One collector moves to a state that is sound where it stands. */
  lemma CollectorMoves(w: World, j: nat, c: Collector)
    requires Invariant(w) && j < |w.collectors| && CollectorOk(w, c)
    ensures Invariant(SetCollector(w, j, c))
  {
  }

  lemma SameButCollectors(w: World, v: World)
    requires v == w.(collectors := v.collectors)
    ensures Live(v) == Live(w) && forall key :: Dead(v, key) <==> Dead(w, key)
    ensures forall p :: PublisherOk(w, p) <==> PublisherOk(v, p)
    ensures forall c :: CollectorOk(w, c) <==> CollectorOk(v, c)
    ensures OwnIncarnations(w) ==> OwnIncarnations(v)
  {
  }

  lemma CheckKeeps(w: World, j: nat)
    requires Invariant(w) && Allowed(w, CheckManifest(j)) && Opens(w, w.collectors[j].head.snapshot)
    ensures Invariant(Next(w, CheckManifest(j)))
  {
    var c := w.collectors[j];
    assert CollectorOk(w, c);
    CollectorMoves(w, j, Checked(c.keys - LiveOf(w.store, c.head.snapshot), c.pendingEtag, c.head));
  }

  /** The fence turns what was unreachable into what can never be reached again. */
  lemma FenceKeeps(w: World, j: nat)
    requires Invariant(w) && Allowed(w, Fence(j)) && w.collectors[j].head.etag == w.head.etag
    requires w.collectors[j].keys != {} && w.collectors[j].head.epoch < MAX_SAFE_INTEGER
    ensures Invariant(Next(w, Fence(j)))
  {
    hide CollectorOk;
    var c := w.collectors[j];
    assert CheckedFacts(w, c) by { CheckedAtHead(w, j); }
    var fenced := w.(head := Head(w.etags, w.head.epoch + 1, w.head.snapshot), etags := w.etags + 1);
    assert Live(fenced) == Live(w);
    forall k | 0 <= k < |w.publishers|
      ensures PublisherOk(fenced, w.publishers[k]) && !Viable(fenced, w.publishers[k])
    {
      assert PublisherOk(w, w.publishers[k]);
    }
    CollectorsSteady(w, fenced);
    assert Invariant(fenced);
    assert AllDead(fenced, c.keys);
    FencedOk(fenced, Authority(w.head.epoch + 1, w.etags, c.keys), c.pendingEtag);
    CollectorMoves(fenced, j, Fenced(Authority(w.head.epoch + 1, w.etags, c.keys), c.pendingEtag));
  }

  predicate CheckedFacts(w: World, c: Collector) {
    c.Checked? && c.head == w.head && c.keys !! Live(w) && UsedKeys(w, c.keys)
  }

  lemma CheckedAtHead(w: World, j: nat)
    requires Invariant(w) && Allowed(w, Fence(j)) && w.collectors[j].head.etag == w.head.etag
    ensures CheckedFacts(w, w.collectors[j])
  {
  }

  lemma FencedOk(w: World, authority: Authority, pendingEtag: nat)
    requires AllDead(w, authority.keys)
    ensures CollectorOk(w, Fenced(authority, pendingEtag)) && CollectorOk(w, Deleting(authority, pendingEtag))
  {
  }

  lemma FewerDead(w: World, authority: Authority, pendingEtag: nat, key: Artifact)
    requires AllDead(w, authority.keys)
    ensures CollectorOk(w, Deleting(authority.(keys := authority.keys - {key}), pendingEtag))
  {
  }

  lemma AuthorityDead(w: World, j: nat)
    requires Invariant(w) && j < |w.collectors| && (w.collectors[j].Fenced? || w.collectors[j].Deleting?)
    ensures AllDead(w, w.collectors[j].authority.keys)
  {
  }

  lemma PendingKeeps(w: World, authority: Option<Authority>)
    requires Invariant(w) && (authority.Some? ==> AllDead(w, authority.value.keys))
    ensures Invariant(w.(pending := Pending(w.etags, authority), etags := w.etags + 1))
    ensures authority.Some? ==>
      AllDead(w.(pending := Pending(w.etags, authority), etags := w.etags + 1), authority.value.keys)
  {
  }

  /** What is dead may go: neither the head nor an attempt that may win misses it. */
  lemma DeleteKeeps(w: World, key: Artifact)
    requires Invariant(w) && Dead(w, key)
    ensures Invariant(w.(store := w.store - {key}))
    ensures forall k :: Dead(w, k) ==> Dead(w.(store := w.store - {key}), k)
  {
    hide CollectorOk;
    var v := w.(store := w.store - {key});
    assert Live(v) == Live(w);
    forall i | 0 <= i < |w.publishers| ensures PublisherOk(v, w.publishers[i]) {
      assert PublisherOk(w, w.publishers[i]);
    }
    forall i | 0 <= i < |w.publishers| && Viable(v, w.publishers[i])
      ensures Intended(v, w.publishers[i]) == Intended(w, w.publishers[i])
    {
      assert PublisherOk(w, w.publishers[i]) && Viable(w, w.publishers[i]);
    }
    CollectorsSteady(w, v);
  }

  lemma PublisherKeeps(w: World, event: Event)
    requires Invariant(w) && Allowed(w, event)
    requires event.CaptureHead? || event.OpenManifest? || event.PutChunk? || event.PutManifest? ||
             event.SwapHead? || event.CrashPublisher?
    ensures Invariant(Next(w, event))
  {
    hide Invariant, Opens;
    match event
    case CaptureHead(i) => CaptureKeeps(w, i);
    case OpenManifest(i, incarnation) =>
      if Opens(w, w.publishers[i].snapshot) { OpenKeeps(w, i, incarnation); } else { RetireKeeps(w, i); }
    case PutChunk(i, digest) => ChunkKeeps(w, i, digest);
    case PutManifest(i, digest, reused) => ManifestKeeps(w, i, digest, reused);
    case SwapHead(i) =>
      if w.publishers[i].etag == w.head.etag { SwapKeeps(w, i); } else { RetireKeeps(w, i); }
    case CrashPublisher(i) => RetireKeeps(w, i);
  }

  lemma SelectedFacts(w: World, j: nat)
    requires Invariant(w) && j < |w.collectors|
    ensures CollectorOk(w, w.collectors[j]) && CollectorOk(w, CollectorIdle) && w.head.etag < w.etags
    ensures w.pending.authority.Some? ==> UsedKeys(w, w.pending.authority.value.keys)
    ensures UsedKeys(w, w.store.Keys)
  {
  }

  lemma CollectorKeeps(w: World, event: Event)
    requires Invariant(w) && Allowed(w, event)
    requires !(event.CaptureHead? || event.OpenManifest? || event.PutChunk? || event.PutManifest? ||
               event.SwapHead? || event.CrashPublisher?)
    ensures Invariant(Next(w, event))
  {
    hide Invariant, Opens, Live, LiveOf, AllDead;
    var j := event.collector;
    var c := w.collectors[j];
    SelectedFacts(w, j);
    match event
    case Discover(_, keys) => CollectorMoves(w, j, Selected(keys, w.pending.etag));
    case Resume(_) => CollectorMoves(w, j, Selected(w.pending.authority.value.keys, w.pending.etag));
    case ReadHead(_) => CollectorMoves(w, j, HeadRead(c.keys, c.pendingEtag, w.head));
    case CheckManifest(_) =>
      if Opens(w, c.head.snapshot) { CheckKeeps(w, j); } else { CollectorMoves(w, j, CollectorIdle); }
    case Fence(_) =>
      if c.keys == {} || c.head.epoch >= MAX_SAFE_INTEGER { CollectorMoves(w, j, CollectorIdle); }
      else if c.head.etag == w.head.etag { FenceKeeps(w, j); }
      else { CollectorMoves(w, j, Selected(c.keys, c.pendingEtag)); }
    case Persist(_) =>
      if c.pendingEtag == w.pending.etag {
        AuthorityDead(w, j);
        PendingKeeps(w, Some(c.authority));
        var v := w.(pending := Pending(w.etags, Some(c.authority)), etags := w.etags + 1);
        FencedOk(v, c.authority, w.etags);
        CollectorMoves(v, j, Deleting(c.authority, w.etags));
      } else { CollectorMoves(w, j, CollectorIdle); }
    case Delete(_, key) =>
      AuthorityDead(w, j);
      KeyIsDead(w, c.authority.keys, key);
      DeleteKeeps(w, key);
      var v := w.(store := w.store - {key});
      StillAllDead(w, v, c.authority.keys);
      FewerDead(v, c.authority, c.pendingEtag, key);
      CollectorMoves(v, j, Deleting(c.authority.(keys := c.authority.keys - {key}), c.pendingEtag));
    case Finish(_) =>
      if c.pendingEtag == w.pending.etag {
        AuthorityDead(w, j);
        var rest := if c.authority.keys == {} then None else Some(c.authority);
        PendingKeeps(w, rest);
        var v := w.(pending := Pending(w.etags, rest), etags := w.etags + 1);
        SelectedFacts(v, j);
        CollectorMoves(v, j, CollectorIdle);
      } else { CollectorMoves(w, j, CollectorIdle); }
    case CrashCollector(_) => CollectorMoves(w, j, CollectorIdle);
  }

  lemma KeyIsDead(w: World, keys: set<Artifact>, key: Artifact)
    requires AllDead(w, keys) && key in keys
    ensures Dead(w, key)
  {
  }

  lemma StillAllDead(w: World, v: World, keys: set<Artifact>)
    requires AllDead(w, keys) && forall k :: Dead(w, k) ==> Dead(v, k)
    ensures AllDead(v, keys)
  {
  }

  lemma StepKeeps(w: World, event: Event)
    requires Invariant(w) && Allowed(w, event)
    ensures Invariant(Next(w, event))
  {
    hide Invariant, Next;
    if event.CaptureHead? || event.OpenManifest? || event.PutChunk? || event.PutManifest? ||
       event.SwapHead? || event.CrashPublisher? {
      PublisherKeeps(w, event);
    } else {
      CollectorKeeps(w, event);
    }
  }

  lemma {:induction false} EveryRunKeepsInvariant(w: World, events: seq<Event>)
    requires Invariant(w) && Possible(w, events)
    ensures Invariant(After(w, events))
    decreases |events|
  {
    hide Invariant, Next, Allowed;
    if events != [] {
      StepKeeps(w, events[0]);
      EveryRunKeepsInvariant(Next(w, events[0]), events[1..]);
    }
  }

  // ---- Safety -------------------------------------------------------------------------------------------

  lemma InitialHolds(w: World)
    requires Initial(w)
    ensures Invariant(w)
  {
  }

  /** In every run, whatever the head reaches is stored: no delete ever removed it. */
  lemma NothingReachableIsDeleted(w: World, events: seq<Event>)
    requires Initial(w) && Possible(w, events)
    ensures Intact(After(w, events))
  {
    InitialHolds(w);
    EveryRunKeepsInvariant(w, events);
  }

  lemma DeadStays(w: World, event: Event, key: Artifact)
    requires Invariant(w) && Allowed(w, event) && Dead(w, key)
    ensures Dead(Next(w, event), key)
  {
    hide Invariant, Next, Allowed, Dead;
    // A collector that remembered the key would have it among its dead keys: add one that does.
    var watcher := Deleting(Authority(0, 0, {key}), 0);
    var watched := w.(collectors := w.collectors + [watcher]);
    WatchedInvariant(w, watcher, key);
    SameNext(w, watcher, event);
    StepKeeps(watched, event);
    WatcherSees(w, watcher, event, key);
  }

  lemma WatchedInvariant(w: World, watcher: Collector, key: Artifact)
    requires Invariant(w) && Dead(w, key) && watcher == Deleting(Authority(0, 0, {key}), 0)
    ensures Invariant(w.(collectors := w.collectors + [watcher]))
  {
    var v := w.(collectors := w.collectors + [watcher]);
    SameButCollectors(w, v);
    forall k | 0 <= k < |v.collectors| ensures CollectorOk(v, v.collectors[k]) {
      if k < |w.collectors| {
        assert CollectorOk(w, w.collectors[k]);
      } else {
        assert AllDead(w, {key});
      }
    }
  }

  lemma SameNext(w: World, watcher: Collector, event: Event)
    requires Allowed(w, event)
    ensures
      var watched := w.(collectors := w.collectors + [watcher]);
      Allowed(watched, event) &&
      Next(watched, event) == Next(w, event).(collectors := Next(w, event).collectors + [watcher])
  {
    var watched := w.(collectors := w.collectors + [watcher]);
    assert watched.store == w.store && watched.head == w.head;
    if !(event.CaptureHead? || event.OpenManifest? || event.PutChunk? || event.PutManifest? ||
         event.SwapHead? || event.CrashPublisher?) {
      var j := event.collector;
      var c := Next(w, event).collectors[j];
      assert (w.collectors + [watcher])[j := c] == w.collectors[j := c] + [watcher];
    }
  }

  lemma WatcherSees(w: World, watcher: Collector, event: Event, key: Artifact)
    requires Allowed(w, event) && watcher == Deleting(Authority(0, 0, {key}), 0)
    requires Invariant(Next(w, event).(collectors := Next(w, event).collectors + [watcher]))
    ensures Dead(Next(w, event), key)
  {
    hide Next, Allowed, PublisherOk, OwnIncarnations, Intact;
    var next := Next(w, event);
    var v := next.(collectors := next.collectors + [watcher]);
    assert v.collectors[|next.collectors|] == watcher;
    assert CollectorOk(v, watcher);
    assert key in watcher.authority.keys && Dead(v, key);
    SameButCollectors(next, v);
  }

  /** Whatever a collector may delete is unreachable, and stays so in every continuation. */
  lemma {:induction false} DeletedIsDeadForGood(w: World, events: seq<Event>, key: Artifact)
    requires Invariant(w) && Dead(w, key) && Possible(w, events)
    ensures key !in Live(After(w, events))
    decreases |events|
  {
    hide Invariant, Next, Allowed, Live;
    if events == [] {
      DeadIsUnreachable(w, key);
    } else {
      DeadStays(w, events[0], key);
      StepKeeps(w, events[0]);
      DeletedIsDeadForGood(Next(w, events[0]), events[1..], key);
    }
  }

  lemma DeadIsUnreachable(w: World, key: Artifact)
    requires Dead(w, key)
    ensures key !in Live(w)
  {
  }

  lemma DeletesAreSafe(w: World, events: seq<Event>, j: nat, key: Artifact, later: seq<Event>)
    requires Initial(w) && Possible(w, events)
    requires Allowed(After(w, events), Delete(j, key)) && Possible(After(w, events), later)
    ensures key !in Live(After(After(w, events), later))
  {
    hide Invariant, Initial, Live, AllDead, Dead, Next;
    InitialHolds(w);
    EveryRunKeepsInvariant(w, events);
    AuthorityDead(After(w, events), j);
    KeyIsDead(After(w, events), After(w, events).collectors[j].authority.keys, key);
    DeletedIsDeadForGood(After(w, events), later, key);
  }

  // ---- ETags, epochs and authority ------------------------------------------------------------------

  /** A head ETag that has been left is never the head's again. */
  lemma {:induction false} EtagsNeverReturn(w: World, events: seq<Event>, etag: nat)
    requires etag < w.etags && etag != w.head.etag && Possible(w, events)
    ensures etag < After(w, events).etags && After(w, events).head.etag != etag
    decreases |events|
  {
    if events != [] {
      EtagsNeverReturn(Next(w, events[0]), events[1..], etag);
    }
  }

  /**
   Once a fence has won, every attempt that captured the head before it must lose: however far it had
   come by then, and whenever it comes to its compare-and-swap, the head stays as it is.
   */
  lemma FenceDefeatsEarlierAttempts(w: World, j: nat, i: nat, events: seq<Event>)
    requires Invariant(w) && Allowed(w, Fence(j)) && Next(w, Fence(j)).head != w.head
    requires i < |w.publishers| && !w.publishers[i].PublisherIdle?
    requires var fenced := Next(w, Fence(j)); Possible(fenced, events) && Allowed(After(fenced, events), SwapHead(i))
    requires After(Next(w, Fence(j)), events).publishers[i].etag == w.publishers[i].etag
    ensures var end := After(Next(w, Fence(j)), events);
      Next(end, SwapHead(i)).head == end.head
  {
    var fenced := Next(w, Fence(j));
    assert PublisherOk(w, w.publishers[i]);
    EtagsNeverReturn(fenced, events, w.publishers[i].etag);
  }

  /** Only a fence changes the epoch, by one, and nothing else in the head but its ETag. */
  lemma OnlyFencesCountEpochs(w: World, event: Event)
    requires Invariant(w) && Allowed(w, event)
    ensures
      var next := Next(w, event);
      if event.Fence? && next.head != w.head then
        next.head.epoch == w.head.epoch + 1 <= MAX_SAFE_INTEGER && next.head.snapshot == w.head.snapshot
      else next.head.epoch == w.head.epoch
  {
  }

  predicate PastFence(c: Collector) {
    c.Fenced? || c.Deleting?
  }

  ghost predicate NonePastFence(w: World) {
    forall j :: 0 <= j < |w.collectors| ==> !PastFence(w.collectors[j])
  }

  lemma StepWithoutFence(w: World, event: Event)
    requires Invariant(w) && Allowed(w, event) && NonePastFence(w) && Next(w, event).head.epoch == w.head.epoch
    ensures NonePastFence(Next(w, event)) && w.store.Keys <= Next(w, event).store.Keys
  {
    OnlyFencesCountEpochs(w, event);
    if event.Fence? {
      assert CollectorOk(w, w.collectors[event.collector]);
    }
  }

  lemma {:induction false} EpochsRise(w: World, events: seq<Event>)
    requires Invariant(w) && Possible(w, events)
    ensures After(w, events).head.epoch >= w.head.epoch
    decreases |events|
  {
    hide Invariant, Next, Allowed;
    if events != [] {
      OnlyFencesCountEpochs(w, events[0]);
      StepKeeps(w, events[0]);
      EpochsRise(Next(w, events[0]), events[1..]);
    }
  }

  /** Without a fence that won, nothing is ever deleted: a lost or crashed fence authorises nothing. */
  lemma {:induction false} NoFenceNoDelete(w: World, events: seq<Event>)
    requires Invariant(w) && NonePastFence(w) && Possible(w, events)
    requires After(w, events).head.epoch == w.head.epoch
    ensures w.store.Keys <= After(w, events).store.Keys
    decreases |events|
  {
    hide Invariant, Next, Allowed, NonePastFence;
    if events != [] {
      var next := Next(w, events[0]);
      OnlyFencesCountEpochs(w, events[0]);
      StepKeeps(w, events[0]);
      EpochsRise(next, events[1..]);
      StepWithoutFence(w, events[0]);
      NoFenceNoDelete(next, events[1..]);
    }
  }

  lemma {:induction false} ExhaustedStays(w: World, events: seq<Event>)
    requires Invariant(w) && w.head.epoch == MAX_SAFE_INTEGER && Possible(w, events)
    ensures After(w, events).head.epoch == MAX_SAFE_INTEGER
    decreases |events|
  {
    hide Invariant, Next, Allowed;
    if events != [] {
      OnlyFencesCountEpochs(w, events[0]);
      StepKeeps(w, events[0]);
      ExhaustedStays(Next(w, events[0]), events[1..]);
    }
  }

  /** At the last epoch there is no fence and so no delete. */
  lemma ExhaustionFailsClosed(w: World, events: seq<Event>)
    requires Invariant(w) && NonePastFence(w) && w.head.epoch == MAX_SAFE_INTEGER && Possible(w, events)
    ensures w.store.Keys <= After(w, events).store.Keys
  {
    ExhaustedStays(w, events);
    NoFenceNoDelete(w, events);
  }

  function KeysOf(c: Collector): set<Artifact> {
    match c
    case CollectorIdle => {}
    case Fenced(authority, _) => authority.keys
    case Deleting(authority, _) => authority.keys
    case _ => c.keys
  }

  predicate HoldsRecord(w: World, c: Collector) {
    !c.CollectorIdle? && c.pendingEtag == w.pending.etag
  }

  /** A collector that could still write the pending record holds none but its remaining keys. */
  ghost predicate WithinAuthority(w: World) {
    && w.pending.etag < w.etags
    && (forall j :: 0 <= j < |w.collectors| && !w.collectors[j].CollectorIdle? ==>
          w.collectors[j].pendingEtag < w.etags)
    && (w.pending.authority.Some? ==>
          forall j :: 0 <= j < |w.collectors| && HoldsRecord(w, w.collectors[j]) ==>
            KeysOf(w.collectors[j]) <= w.pending.authority.value.keys)
  }

  lemma BatchStepShrinks(w: World, event: Event)
    requires WithinAuthority(w) && Allowed(w, event)
    ensures WithinAuthority(Next(w, event))
    ensures w.pending.authority.Some? && Next(w, event).pending.authority.Some? ==>
      Next(w, event).pending.authority.value.keys <= w.pending.authority.value.keys
  {
    hide Live, LiveOf;
  }

  lemma InitialWithinAuthority(w: World)
    requires Initial(w)
    ensures WithinAuthority(w)
  {
  }

  lemma {:induction false} EveryRunWithinAuthority(w: World, events: seq<Event>)
    requires WithinAuthority(w) && Possible(w, events)
    ensures WithinAuthority(After(w, events))
    decreases |events|
  {
    hide WithinAuthority, Next, Allowed;
    if events != [] {
      BatchStepShrinks(w, events[0]);
      EveryRunWithinAuthority(Next(w, events[0]), events[1..]);
    }
  }

  /** No completion is written anywhere in the run: a batch stays authorised. */
  predicate Unfinished(w: World, events: seq<Event>)
    requires Possible(w, events)
    decreases |events|
  {
    w.pending.authority.Some? && (events == [] || Unfinished(Next(w, events[0]), events[1..]))
  }

  lemma {:induction false} RunShrinks(w: World, events: seq<Event>)
    requires WithinAuthority(w) && Possible(w, events) && Unfinished(w, events)
    ensures After(w, events).pending.authority.Some?
    ensures After(w, events).pending.authority.value.keys <= w.pending.authority.value.keys
    decreases |events|
  {
    hide WithinAuthority, Next, Allowed;
    if events != [] {
      BatchStepShrinks(w, events[0]);
      RunShrinks(Next(w, events[0]), events[1..]);
    }
  }

  /** In every run, from any moment until its completion, a persisted batch only shrinks: no resume widens it. */
  lemma BatchesOnlyShrink(w: World, events: seq<Event>, later: seq<Event>)
    requires Initial(w) && Possible(w, events)
    requires Possible(After(w, events), later) && Unfinished(After(w, events), later)
    ensures
      var end := After(After(w, events), later);
      end.pending.authority.Some? &&
      end.pending.authority.value.keys <= After(w, events).pending.authority.value.keys
  {
    InitialWithinAuthority(w);
    EveryRunWithinAuthority(w, events);
    RunShrinks(After(w, events), later);
  }

  // ---- Every delete has its fence -------------------------------------------------------------------

  /** The world before the n-th event. */
  function At(w: World, events: seq<Event>, n: nat): World
    requires Possible(w, events) && n <= |events|
    decreases n
  {
    if n == 0 then w else At(Next(w, events[0]), events[1..], n - 1)
  }

  lemma {:induction false} AtMoves(w: World, events: seq<Event>, n: nat)
    requires Possible(w, events) && n < |events|
    ensures Allowed(At(w, events, n), events[n])
    ensures At(w, events, n + 1) == Next(At(w, events, n), events[n])
    decreases n
  {
    hide Next, Allowed;
    if n > 0 {
      AtMoves(Next(w, events[0]), events[1..], n - 1);
      assert At(w, events, n) == At(Next(w, events[0]), events[1..], n - 1);
      assert At(w, events, n + 1) == At(Next(w, events[0]), events[1..], n);
    } else {
      assert At(w, events, 1) == At(Next(w, events[0]), events[1..], 0);
    }
  }

  predicate ByCollector(event: Event, j: nat) {
    !(event.CaptureHead? || event.OpenManifest? || event.PutChunk? || event.PutManifest? ||
      event.SwapHead? || event.CrashPublisher?) && event.collector == j
  }

  /** Event `f` is collector `j`'s fence; it takes effect and gives the authority its epoch and its ETag. */
  ghost predicate FenceWon(w: World, events: seq<Event>, j: nat, f: nat, authority: Authority)
    requires Possible(w, events) && f < |events|
  {
    && events[f] == Fence(j) && At(w, events, f + 1).head != At(w, events, f).head
    && authority.epoch == At(w, events, f + 1).head.epoch == At(w, events, f).head.epoch + 1
    && authority.fenceEtag == At(w, events, f + 1).head.etag
    && authority.keys !! Live(At(w, events, f))
  }

  ghost predicate Quiet(events: seq<Event>, j: nat, lo: nat, hi: nat) {
    forall q :: lo < q < hi <= |events| ==> !ByCollector(events[q], j)
  }

  ghost predicate OnlyDeletes(events: seq<Event>, j: nat, lo: nat, hi: nat) {
    forall q :: lo < q < hi <= |events| && ByCollector(events[q], j) ==> events[q].Delete?
  }

  lemma OthersLeaveIt(w: World, event: Event, j: nat)
    requires Allowed(w, event) && j < |w.collectors| && !ByCollector(event, j)
    ensures j < |Next(w, event).collectors| && Next(w, event).collectors[j] == w.collectors[j]
  {
  }

  /** How a collector comes to hold an authority, and to be deleting under one. */
  lemma OwnMoves(w: World, event: Event, j: nat)
    requires Invariant(w) && Allowed(w, event) && ByCollector(event, j)
    ensures var c := Next(w, event).collectors[j];
      c.Fenced? ==>
        event == Fence(j) && Next(w, event).head != w.head
        && c.authority.epoch == Next(w, event).head.epoch == w.head.epoch + 1
        && c.authority.fenceEtag == Next(w, event).head.etag && c.authority.keys !! Live(w)
    ensures var c := Next(w, event).collectors[j];
      c.Deleting? ==>
        || (event == Persist(j) && w.collectors[j].Fenced? && c.authority == w.collectors[j].authority
            && Next(w, event).pending.authority == Some(c.authority))
        || (event.Delete? && w.collectors[j].Deleting?
            && c.authority == w.collectors[j].authority.(keys := w.collectors[j].authority.keys - {event.key}))
  {
    hide PublisherOk, OwnIncarnations;
    assert CollectorOk(w, w.collectors[j]);
  }

  lemma {:induction false} RunInvariantAt(w: World, events: seq<Event>, n: nat)
    requires Invariant(w) && Possible(w, events) && n <= |events|
    ensures Invariant(At(w, events, n))
    ensures |At(w, events, n).collectors| == |w.collectors|
    decreases n
  {
    hide Invariant, Next, Allowed;
    if n > 0 {
      StepKeeps(w, events[0]);
      SameCollectors(w, events[0]);
      RunInvariantAt(Next(w, events[0]), events[1..], n - 1);
    }
  }

  lemma SameCollectors(w: World, event: Event)
    requires Allowed(w, event)
    ensures |Next(w, event).collectors| == |w.collectors|
  {
  }

  lemma {:induction false} FenceBehind(w: World, events: seq<Event>, j: nat, n: nat) returns (f: nat)
    requires Initial(w) && Possible(w, events) && n <= |events| && j < |w.collectors|
    requires j < |At(w, events, n).collectors| && At(w, events, n).collectors[j].Fenced?
    ensures f < n && FenceWon(w, events, j, f, At(w, events, n).collectors[j].authority)
    ensures Quiet(events, j, f, n)
    decreases n
  {
    hide Initial, Invariant, Next, Allowed, ByCollector;
    if n == 0 {
      assert false by { InitiallyNone(w, j); }
    } else {
      AtMoves(w, events, n - 1);
      InitialHolds(w);
      RunInvariantAt(w, events, n - 1);
      if ByCollector(events[n - 1], j) {
        OwnMoves(At(w, events, n - 1), events[n - 1], j);
        f := n - 1;
      } else {
        OthersLeaveIt(At(w, events, n - 1), events[n - 1], j);
        f := FenceBehind(w, events, j, n - 1);
      }
    }
  }

  lemma InitiallyNone(w: World, j: nat)
    requires Initial(w) && j < |w.collectors|
    ensures w.collectors[j].CollectorIdle?
  {
  }

  /** Collector `j` holds at `n` what is left of an authority it fenced at `f` and persisted at `p`. */
  ghost predicate Authorised(w: World, events: seq<Event>, j: nat, f: nat, p: nat, n: nat, authority: Authority)
    requires Possible(w, events) && n <= |events|
  {
    && f < p < n && FenceWon(w, events, j, f, authority) && Quiet(events, j, f, p)
    && events[p] == Persist(j) && At(w, events, p + 1).pending.authority == Some(authority)
    && OnlyDeletes(events, j, p, n)
  }

  lemma {:induction false} PersistBehind(w: World, events: seq<Event>, j: nat, n: nat)
    returns (f: nat, p: nat, authority: Authority)
    requires Initial(w) && Possible(w, events) && n <= |events| && j < |w.collectors|
    requires j < |At(w, events, n).collectors| && At(w, events, n).collectors[j].Deleting?
    ensures Authorised(w, events, j, f, p, n, authority)
    ensures At(w, events, n).collectors[j].authority.keys <= authority.keys
    decreases n
  {
    hide Initial, Invariant, Next, Allowed, ByCollector, FenceWon;
    if n == 0 {
      assert false by { InitiallyNone(w, j); }
    } else {
      AtMoves(w, events, n - 1);
      InitialHolds(w);
      RunInvariantAt(w, events, n - 1);
      if !ByCollector(events[n - 1], j) {
        OthersLeaveIt(At(w, events, n - 1), events[n - 1], j);
        f, p, authority := PersistBehind(w, events, j, n - 1);
      } else {
        OwnMoves(At(w, events, n - 1), events[n - 1], j);
        if events[n - 1].Delete? {
          f, p, authority := PersistBehind(w, events, j, n - 1);
        } else {
          authority := At(w, events, n - 1).collectors[j].authority;
          f := FenceBehind(w, events, j, n - 1);
          p := n - 1;
        }
      }
    }
  }

  /**
   In every run, a delete is preceded by a fence that the same collector won and by its persisting that
   fence's authority, which names the key; between the two the collector does nothing else, and since then
   nothing but deletes.
   */
  lemma EveryDeleteHasItsFence(w: World, events: seq<Event>, n: nat)
    requires Initial(w) && Possible(w, events) && n < |events| && events[n].Delete?
    ensures exists f: nat, p: nat, authority: Authority ::
      Authorised(w, events, events[n].collector, f, p, n, authority) && events[n].key in authority.keys
  {
    hide Initial, Invariant, Next, Authorised;
    AtMoves(w, events, n);
    InitialHolds(w);
    RunInvariantAt(w, events, n);
    var f, p, authority := PersistBehind(w, events, events[n].collector, n);
  }
}

/** The expected journals, as the storage calls of runs of the protocol from a stored collection. */
module FenceJournals {

  import opened Options
  import opened FenceModel
  import opened FenceRuns

  datatype Verb = Get | Put | Remove | List

  datatype KeyClass = CurrentKey | ManifestKey | ChunkKey | PendingKey | PrefixKey

  datatype Condition = Always | IfMatch | IfNoneMatch

  datatype Outcome = Fine | Conflict

  datatype Call = Call(verb: Verb, on: KeyClass, condition: Condition, outcome: Outcome)

  const GET_CURRENT := Call(Get, CurrentKey, Always, Fine)
  const GET_MANIFEST := Call(Get, ManifestKey, Always, Fine)
  const LIST_PREFIX := Call(List, PrefixKey, Always, Fine)
  const PUT_CHUNK := Call(Put, ChunkKey, IfNoneMatch, Fine)
  const PUT_MANIFEST := Call(Put, ManifestKey, IfNoneMatch, Fine)
  const REMOVE_CHUNK := Call(Remove, ChunkKey, Always, Fine)
  const REMOVE_MANIFEST := Call(Remove, ManifestKey, Always, Fine)

  function Swapped(on: KeyClass, won: bool): Call {
    Call(Put, on, IfMatch, if won then Fine else Conflict)
  }

  /** The calls of one event, whoever makes it. */
  function Observed(w: World, event: Event): seq<Call>
    requires Allowed(w, event)
  {
    match event
    case CaptureHead(_) => [GET_CURRENT]
    case OpenManifest(i, _) =>
      if w.publishers[i].snapshot.None? then [] else [GET_MANIFEST]
    case PutChunk(_, _) => [PUT_CHUNK]
    case PutManifest(_, _, _) => [PUT_MANIFEST]
    case SwapHead(i) => [Swapped(CurrentKey, w.publishers[i].etag == w.head.etag)]
    case Discover(_, _) => [LIST_PREFIX]
    case Resume(_) => [Call(Get, PendingKey, Always, Fine)]
    case ReadHead(_) => [GET_CURRENT]
    case CheckManifest(j) =>
      if w.collectors[j].head.snapshot.None? then [] else [GET_MANIFEST]
    case Fence(j) =>
      if w.collectors[j].keys == {} || w.collectors[j].head.epoch >= MAX_SAFE_INTEGER then []
      else [Swapped(CurrentKey, w.collectors[j].head.etag == w.head.etag)]
    case Persist(j) => [Swapped(PendingKey, w.collectors[j].pendingEtag == w.pending.etag)]
    case Delete(_, key) => [if key.Chunk? then REMOVE_CHUNK else REMOVE_MANIFEST]
    case Finish(j) => [Swapped(PendingKey, w.collectors[j].pendingEtag == w.pending.etag)]
    case _ => []
  }

  predicate ByPublisher(event: Event, i: nat) {
    (event.CaptureHead? || event.OpenManifest? || event.PutChunk? || event.PutManifest? ||
     event.SwapHead? || event.CrashPublisher?) && event.publisher == i
  }

  function CollectorJournal(w: World, events: seq<Event>, j: nat): seq<Call>
    requires Possible(w, events)
    decreases |events|
  {
    if events == [] then []
    else
      (if ByCollector(events[0], j) then Observed(w, events[0]) else []) +
      CollectorJournal(Next(w, events[0]), events[1..], j)
  }

  function PublisherJournal(w: World, events: seq<Event>, i: nat): seq<Call>
    requires Possible(w, events)
    decreases |events|
  {
    if events == [] then []
    else
      (if ByPublisher(events[0], i) then Observed(w, events[0]) else []) +
      PublisherJournal(Next(w, events[0]), events[1..], i)
  }

  /** A run may be extended by one event, and both kinds of journal with it. */
  lemma {:induction false} Extend(w: World, events: seq<Event>, event: Event) returns (all: seq<Event>)
    requires Possible(w, events) && Allowed(After(w, events), event)
    ensures Possible(w, all) && After(w, all) == Next(After(w, events), event)
    ensures forall j ::
      CollectorJournal(w, all, j) ==
      CollectorJournal(w, events, j) + (if ByCollector(event, j) then Observed(After(w, events), event) else [])
    ensures forall i ::
      PublisherJournal(w, all, i) ==
      PublisherJournal(w, events, i) + (if ByPublisher(event, i) then Observed(After(w, events), event) else [])
    decreases |events|
  {
    hide Next, Observed, Allowed, ByCollector, ByPublisher;
    if events == [] {
      all := [event];
      assert all[1..] == [];
    } else {
      var rest := Extend(Next(w, events[0]), events[1..], event);
      all := [events[0]] + rest;
      assert all[1..] == rest;
    }
  }

  /** An opened collection whose head names a stored manifest that reaches none of the keys. */
  predicate Collectable(w: World, keys: set<Artifact>) {
    w.head.snapshot.Some? && w.head.snapshot.value in w.store && keys !! Live(w) && keys != {}
  }

  /** Head and manifest are read: the selected keys are still unreachable. */
  lemma ReadAndCheck(w: World, before: seq<Event>, j: nat, keys: set<Artifact>, pendingEtag: nat)
    returns (events: seq<Event>)
    requires Possible(w, before)
    requires var v := After(w, before);
      j < |v.collectors| && v.collectors[j] == Selected(keys, pendingEtag) && Collectable(v, keys)
    ensures Possible(w, events)
    ensures After(w, events) == SetCollector(After(w, before), j, Checked(keys, pendingEtag, After(w, before).head))
    ensures CollectorJournal(w, events, j) == CollectorJournal(w, before, j) + [GET_CURRENT, GET_MANIFEST]
  {
    hide Possible, After, CollectorJournal, PublisherJournal;
    var v := After(w, before);
    events := Extend(w, before, ReadHead(j));
    events := Extend(w, events, CheckManifest(j));
    assert keys - Live(v) == keys;
    assert v.collectors[j := HeadRead(keys, pendingEtag, v.head)][j := Checked(keys, pendingEtag, v.head)] ==
           v.collectors[j := Checked(keys, pendingEtag, v.head)];
  }

  /** The fence is won and its authority persisted. */
  lemma FenceAndPersist(w: World, before: seq<Event>, j: nat, keys: set<Artifact>) returns (events: seq<Event>)
    requires Possible(w, before)
    requires var v := After(w, before);
      j < |v.collectors| && v.collectors[j] == Checked(keys, v.pending.etag, v.head) && keys != {} &&
      v.head.epoch < MAX_SAFE_INTEGER
    ensures Possible(w, events)
    ensures
      var v := After(w, before);
      var end := After(w, events);
      && end.head.epoch == v.head.epoch + 1 && end.head.snapshot == v.head.snapshot
      && end.store == v.store && |end.collectors| == |v.collectors|
      && end.collectors[j].Deleting? && end.collectors[j].authority.keys == keys
      && end.collectors[j].pendingEtag == end.pending.etag
    ensures CollectorJournal(w, events, j) ==
      CollectorJournal(w, before, j) + [Swapped(CurrentKey, true), Swapped(PendingKey, true)]
  {
    hide Possible, After, CollectorJournal, PublisherJournal;
    events := Extend(w, before, Fence(j));
    events := Extend(w, events, Persist(j));
  }

  /** A pass up to its checked candidates: it lists, and reads head and manifest. */
  lemma DiscoverAndCheck(w: World, before: seq<Event>, j: nat, keys: set<Artifact>) returns (events: seq<Event>)
    requires Possible(w, before)
    requires
      var v := After(w, before);
      && j < |v.collectors| && v.collectors[j].CollectorIdle? && v.pending.authority.None?
      && keys <= v.store.Keys && Collectable(v, keys)
    ensures Possible(w, events)
    ensures
      var v := After(w, before);
      After(w, events) == SetCollector(v, j, Checked(keys, v.pending.etag, v.head))
    ensures CollectorJournal(w, events, j) ==
      CollectorJournal(w, before, j) + [LIST_PREFIX, GET_CURRENT, GET_MANIFEST]
  {
    hide Possible, After, CollectorJournal, PublisherJournal;
    var v := After(w, before);
    events := Extend(w, before, Discover(j, keys));
    events := ReadAndCheck(w, events, j, keys, v.pending.etag);
    var c := Checked(keys, v.pending.etag, v.head);
    assert v.collectors[j := Selected(keys, v.pending.etag)][j := c] == v.collectors[j := c];
  }

  /** A pass up to its persisted authority. */
  lemma FencePass(w: World, j: nat, keys: set<Artifact>) returns (events: seq<Event>)
    requires Initial(w) && j < |w.collectors| && keys <= w.store.Keys && Collectable(w, keys)
    requires w.head.epoch < MAX_SAFE_INTEGER
    ensures Possible(w, events)
    ensures
      var end := After(w, events);
      && end.head.epoch == w.head.epoch + 1 && end.head.snapshot == w.head.snapshot && end.store == w.store
      && |end.collectors| == |w.collectors| && end.collectors[j].Deleting?
      && end.collectors[j].authority.keys == keys && end.collectors[j].pendingEtag == end.pending.etag
    ensures CollectorJournal(w, events, j) ==
      [LIST_PREFIX, GET_CURRENT, GET_MANIFEST, Swapped(CurrentKey, true), Swapped(PendingKey, true)]
  {
    NoEvents(w, j);
    hide Possible, After, CollectorJournal, PublisherJournal;
    events := DiscoverAndCheck(w, [], j, keys);
    events := FenceAndPersist(w, events, j, keys);
  }

  /** After its discovery, the fence that wins: fence, authority, both deletes, completion. */
  lemma FenceWinJournal(w: World, j: nat, chunk: Artifact, manifest: Artifact) returns (events: seq<Event>)
    requires Initial(w) && j < |w.collectors| && {chunk, manifest} <= w.store.Keys
    requires chunk.Chunk? && manifest.Manifest? && Collectable(w, {chunk, manifest})
    requires w.head.epoch < MAX_SAFE_INTEGER
    ensures Possible(w, events) && After(w, events).pending.authority == None
    ensures After(w, events).store == w.store - {chunk, manifest}
    ensures CollectorJournal(w, events, j) == [LIST_PREFIX] +
      [GET_CURRENT, GET_MANIFEST, Swapped(CurrentKey, true), Swapped(PendingKey, true),
       REMOVE_CHUNK, REMOVE_MANIFEST, Swapped(PendingKey, true)]
  {
    NoEvents(w, j);
    hide Possible, After, CollectorJournal, PublisherJournal;
    events := FencePass(w, j, {chunk, manifest});
    events := Extend(w, events, Delete(j, chunk));
    events := Extend(w, events, Delete(j, manifest));
    assert {chunk, manifest} - {chunk} - {manifest} == {};
    assert w.store - {chunk} - {manifest} == w.store - {chunk, manifest};
    events := Extend(w, events, Finish(j));
  }

  lemma NoEvents(w: World, actor: nat)
    ensures Possible(w, []) && After(w, []) == w
    ensures CollectorJournal(w, [], actor) == [] && PublisherJournal(w, [], actor) == []
  {
  }

  /** A pass that deletes the chunk, persists what remains of its batch, and stops. */
  lemma HalfBatch(w: World, j: nat, chunk: Artifact, manifest: Artifact) returns (events: seq<Event>)
    requires Initial(w) && j < |w.collectors| && {chunk, manifest} <= w.store.Keys && chunk != manifest
    requires chunk.Chunk? && Collectable(w, {chunk, manifest}) && w.head.epoch < MAX_SAFE_INTEGER
    ensures Possible(w, events)
    ensures
      var end := After(w, events);
      && end.store == w.store - {chunk} && end.head.epoch == w.head.epoch + 1 && end.head.snapshot == w.head.snapshot
      && |end.collectors| == |w.collectors| && end.collectors[j].CollectorIdle?
      && end.pending.authority.Some? && end.pending.authority.value.keys == {manifest}
    ensures CollectorJournal(w, events, j) ==
      [LIST_PREFIX, GET_CURRENT, GET_MANIFEST, Swapped(CurrentKey, true), Swapped(PendingKey, true),
       REMOVE_CHUNK, Swapped(PendingKey, true)]
  {
    NoEvents(w, j);
    hide Possible, After, CollectorJournal, PublisherJournal;
    events := FencePass(w, j, {chunk, manifest});
    events := Extend(w, events, Delete(j, chunk));
    assert {chunk, manifest} - {chunk} == {manifest};
    events := Extend(w, events, Finish(j));
  }

  /** The resumed batch: the record is read back and its remaining key fenced again. */
  lemma ResumeRest(w: World, before: seq<Event>, j: nat, manifest: Artifact) returns (events: seq<Event>)
    requires Possible(w, before)
    requires
      var v := After(w, before);
      && j < |v.collectors| && v.collectors[j].CollectorIdle? && v.pending.authority.Some?
      && v.pending.authority.value.keys == {manifest} && Collectable(v, {manifest}) && v.head.epoch < MAX_SAFE_INTEGER
    requires manifest.Manifest?
    ensures Possible(w, events) && After(w, events).pending.authority == None
    ensures After(w, events).store == After(w, before).store - {manifest}
    ensures After(w, events).head.epoch == After(w, before).head.epoch + 1
    ensures CollectorJournal(w, events, j) == CollectorJournal(w, before, j) +
      [Call(Get, PendingKey, Always, Fine), GET_CURRENT, GET_MANIFEST, Swapped(CurrentKey, true),
       Swapped(PendingKey, true), REMOVE_MANIFEST, Swapped(PendingKey, true)]
  {
    hide Possible, After, CollectorJournal, PublisherJournal;
    var v := After(w, before);
    events := Extend(w, before, Resume(j));
    events := ReadAndCheck(w, events, j, {manifest}, v.pending.etag);
    events := FenceAndPersist(w, events, j, {manifest});
    events := Extend(w, events, Delete(j, manifest));
    assert {manifest} - {manifest} == {};
    events := Extend(w, events, Finish(j));
  }

  /** A batch left half done is resumed: after the first pass, the calls of the fence-resume journal. */
  lemma FenceResumeJournal(w: World, j: nat, chunk: Artifact, manifest: Artifact) returns (events: seq<Event>)
    requires Initial(w) && j < |w.collectors| && {chunk, manifest} <= w.store.Keys
    requires chunk.Chunk? && manifest.Manifest? && Collectable(w, {chunk, manifest})
    requires w.head.epoch + 1 < MAX_SAFE_INTEGER
    ensures Possible(w, events) && After(w, events).pending.authority == None
    ensures After(w, events).store == w.store - {chunk, manifest}
    ensures After(w, events).head.epoch == w.head.epoch + 2
    ensures CollectorJournal(w, events, j) ==
      [LIST_PREFIX, GET_CURRENT, GET_MANIFEST, Swapped(CurrentKey, true), Swapped(PendingKey, true),
       REMOVE_CHUNK, Swapped(PendingKey, true)] +
      [Call(Get, PendingKey, Always, Fine), GET_CURRENT, GET_MANIFEST, Swapped(CurrentKey, true),
       Swapped(PendingKey, true), REMOVE_MANIFEST, Swapped(PendingKey, true)]
  {
    hide Possible, After, CollectorJournal, PublisherJournal;
    var first := HalfBatch(w, j, chunk, manifest);
    assert w.store - {chunk} - {manifest} == w.store - {chunk, manifest};
    events := ResumeRest(w, first, j, manifest);
  }

  /** A publisher swaps the head before a fence that was checked against it. */
  lemma FenceLoses(w: World, before: seq<Event>, j: nat, i: nat, keys: set<Artifact>, pendingEtag: nat)
    returns (events: seq<Event>)
    requires Possible(w, before)
    requires
      var v := After(w, before);
      && j < |v.collectors| && v.collectors[j] == Checked(keys, pendingEtag, v.head) && keys != {}
      && i < |v.publishers| && v.publishers[i].Ready? && v.publishers[i].etag == v.head.etag < v.etags
      && v.publishers[i].manifest in v.store && v.head.epoch < MAX_SAFE_INTEGER
    ensures Possible(w, events)
    ensures
      var v := After(w, before);
      After(w, events).store == v.store && After(w, events).head.snapshot == Some(v.publishers[i].manifest)
    ensures CollectorJournal(w, events, j) ==
      CollectorJournal(w, before, j) + [Swapped(CurrentKey, false), GET_CURRENT, GET_MANIFEST]
  {
    hide Possible, After, CollectorJournal, PublisherJournal;
    events := Extend(w, before, SwapHead(i));
    events := Extend(w, events, Fence(j));
    events := Extend(w, events, ReadHead(j));
    events := Extend(w, events, CheckManifest(j));
  }

  /** A publisher that wins first makes the fence conflict; the collector rereads and deletes nothing. */
  lemma FenceConflictJournal(w: World, j: nat, i: nat, keys: set<Artifact>, incarnation: nat, chunks: seq<nat>,
                             manifest: nat)
    returns (events: seq<Event>)
    requires Initial(w) && j < |w.collectors| && i < |w.publishers| && keys <= w.store.Keys && Collectable(w, keys)
    requires incarnation !in w.used && w.head.epoch < MAX_SAFE_INTEGER
    ensures Possible(w, events) && w.store.Keys <= After(w, events).store.Keys
    ensures After(w, events).head.snapshot == Some(Manifest(incarnation, manifest))
    ensures CollectorJournal(w, events, j) ==
      [LIST_PREFIX, GET_CURRENT, GET_MANIFEST] + [Swapped(CurrentKey, false), GET_CURRENT, GET_MANIFEST]
  {
    NoEvents(w, j);
    NoEvents(w, i);
    hide Possible, After, CollectorJournal, PublisherJournal;
    events := WriteAttempt(w, [], i, incarnation, chunks, manifest);
    assert Live(After(w, events)) == Live(w);
    events := DiscoverAndCheck(w, events, j, keys);
    events := FenceLoses(w, events, j, i, keys, w.pending.etag);
  }

  /** At the last epoch the collector reads and stops. */
  lemma FenceExhaustedJournal(w: World, j: nat, keys: set<Artifact>) returns (events: seq<Event>)
    requires Initial(w) && j < |w.collectors| && keys <= w.store.Keys && Collectable(w, keys)
    requires w.head.epoch == MAX_SAFE_INTEGER
    ensures Possible(w, events) && After(w, events).collectors == w.collectors[j := CollectorIdle]
    ensures After(w, events).store == w.store && After(w, events).head == w.head
    ensures CollectorJournal(w, events, j) == [LIST_PREFIX] + [GET_CURRENT, GET_MANIFEST]
  {
    NoEvents(w, j);
    hide Possible, After, CollectorJournal, PublisherJournal;
    events := DiscoverAndCheck(w, [], j, keys);
    events := Extend(w, events, Fence(j));
    assert After(w, events).collectors == w.collectors[j := CollectorIdle];
  }

  function ChunkPuts(n: nat): (calls: seq<Call>)
    ensures |calls| == n
  {
    if n == 0 then [] else ChunkPuts(n - 1) + [PUT_CHUNK]
  }

  /** Since then only publisher i has made calls. */
  ghost predicate OthersSilent(w: World, before: seq<Event>, events: seq<Event>, i: nat)
    requires Possible(w, before) && Possible(w, events)
  {
    && (forall j :: CollectorJournal(w, events, j) == CollectorJournal(w, before, j))
    && (forall k :: k != i ==> PublisherJournal(w, events, k) == PublisherJournal(w, before, k))
  }

  lemma {:induction false} PutChunks(w: World, before: seq<Event>, i: nat, chunks: seq<nat>)
    returns (events: seq<Event>)
    requires Possible(w, before)
    requires var v := After(w, before); i < |v.publishers| && v.publishers[i].Writing?
    ensures Possible(w, events)
    ensures
      var v := After(w, before);
      var end := After(w, events);
      && end.head == v.head && end.etags == v.etags && end.used == v.used
      && Grows(v.store, end.store) && end.collectors == v.collectors && end.pending == v.pending
      && (forall key: Artifact :: key.Manifest? && key in end.store ==> key in v.store)
      && |end.publishers| == |v.publishers| && end.publishers[i].Writing?
      && end.publishers == v.publishers[i := v.publishers[i].(written := end.publishers[i].written)]
    ensures PublisherJournal(w, events, i) == PublisherJournal(w, before, i) + ChunkPuts(|chunks|)
    ensures OthersSilent(w, before, events, i)
    decreases |chunks|
  {
    hide Possible, After, CollectorJournal, PublisherJournal;
    if chunks == [] {
      events := before;
    } else {
      events := PutChunks(w, before, i, chunks[..|chunks| - 1]);
      events := Extend(w, events, PutChunk(i, chunks[|chunks| - 1]));
    }
  }

  /** A publisher opens the head and writes the chunks and the manifest of its attempt. */
  lemma WriteAttempt(w: World, before: seq<Event>, i: nat, incarnation: nat, chunks: seq<nat>, manifest: nat)
    returns (events: seq<Event>)
    requires Possible(w, before)
    requires var v := After(w, before);
      i < |v.publishers| && v.publishers[i].PublisherIdle? && incarnation !in v.used &&
      v.head.snapshot.Some? && v.head.snapshot.value in v.store
    ensures Possible(w, events)
    ensures
      var v := After(w, before);
      var end := After(w, events);
      && end.head == v.head && end.etags == v.etags && end.used == v.used + {incarnation}
      && Grows(v.store, end.store) && Manifest(incarnation, manifest) in end.store
      && end.collectors == v.collectors && end.pending == v.pending
      && end.publishers == v.publishers[i := Ready(v.head.etag, Manifest(incarnation, manifest))]
    ensures PublisherJournal(w, events, i) == PublisherJournal(w, before, i) +
      [GET_CURRENT, GET_MANIFEST] + ChunkPuts(|chunks|) + [PUT_MANIFEST]
    ensures OthersSilent(w, before, events, i)
  {
    hide Possible, After, CollectorJournal, PublisherJournal;
    var v := After(w, before);
    events := Extend(w, before, CaptureHead(i));
    events := Extend(w, events, OpenManifest(i, incarnation));
    events := PutChunks(w, events, i, chunks);
    events := Extend(w, events, PutManifest(i, manifest, {}));
    assert After(w, events).publishers == v.publishers[i := Ready(v.head.etag, Manifest(incarnation, manifest))];
  }

  /** One publication that wins, with as many chunks as it likes. */
  lemma CasWinJournal(w: World, i: nat, incarnation: nat, chunks: seq<nat>, manifest: nat)
    returns (events: seq<Event>)
    requires i < |w.publishers| && w.publishers[i].PublisherIdle? && incarnation !in w.used
    requires w.head.snapshot.Some? && w.head.snapshot.value in w.store
    ensures Possible(w, events) && After(w, events).head.snapshot == Some(Manifest(incarnation, manifest))
    ensures PublisherJournal(w, events, i) ==
      [GET_CURRENT, GET_MANIFEST] + ChunkPuts(|chunks|) +
      [PUT_MANIFEST, Swapped(CurrentKey, true)]
  {
    NoEvents(w, i);
    hide Possible, After, CollectorJournal, PublisherJournal, ChunkPuts;
    events := WriteAttempt(w, [], i, incarnation, chunks, manifest);
    events := Extend(w, events, SwapHead(i));
  }

  /** Of two attempts on one head the first to swap wins. */
  lemma SwapLoses(w: World, before: seq<Event>, i: nat, k: nat) returns (events: seq<Event>)
    requires Possible(w, before)
    requires
      var v := After(w, before);
      && i < |v.publishers| && k < |v.publishers| && i != k && v.head.etag < v.etags
      && v.publishers[i].Ready? && v.publishers[i].etag == v.head.etag
      && v.publishers[k].Ready? && v.publishers[k].etag == v.head.etag
    ensures Possible(w, events)
    ensures
      var v := After(w, before);
      var end := After(w, events);
      && end.head.snapshot == Some(v.publishers[k].manifest) && end.store == v.store && end.used == v.used
      && |end.publishers| == |v.publishers| && end.publishers[i].PublisherIdle?
    ensures PublisherJournal(w, events, i) == PublisherJournal(w, before, i) + [Swapped(CurrentKey, false)]
  {
    hide Possible, After, CollectorJournal, PublisherJournal;
    events := Extend(w, before, SwapHead(k));
    events := Extend(w, events, SwapHead(i));
  }

  /** Two publishers open one head, and the attempt of the second loses its swap. */
  lemma LostAttempt(w: World, i: nat, k: nat, winner: nat, first: nat, digests: seq<nat>)
    returns (events: seq<Event>)
    requires Initial(w) && i < |w.publishers| && k < |w.publishers| && i != k
    requires w.head.snapshot.Some? && |digests| == 3
    requires winner !in w.used && first !in w.used && winner != first
    ensures Possible(w, events)
    ensures
      var end := After(w, events);
      && end.head.snapshot == Some(Manifest(winner, digests[2])) && Manifest(winner, digests[2]) in end.store
      && end.used == w.used + {winner, first}
      && |end.publishers| == |w.publishers| && end.publishers[i].PublisherIdle?
    ensures PublisherJournal(w, events, i) ==
      [GET_CURRENT, GET_MANIFEST] + ChunkPuts(1) + [PUT_MANIFEST, Swapped(CurrentKey, false)]
  {
    NoEvents(w, i);
    hide Possible, After, CollectorJournal, PublisherJournal, ChunkPuts;
    events := WriteAttempt(w, [], k, winner, [], digests[2]);
    events := WriteAttempt(w, events, i, first, [digests[0]], digests[1]);
    events := SwapLoses(w, events, i, k);
  }

  /** A publication that loses to another and is started again, with a fresh incarnation. */
  lemma CasLossJournal(w: World, i: nat, k: nat, winner: nat, first: nat, second: nat, digests: seq<nat>)
    returns (events: seq<Event>)
    requires Initial(w) && i < |w.publishers| && k < |w.publishers| && i != k
    requires w.head.snapshot.Some? && |digests| == 5
    requires winner !in w.used && first !in w.used && second !in w.used
    requires winner != first && winner != second && first != second
    ensures Possible(w, events) && After(w, events).head.snapshot == Some(Manifest(second, digests[3]))
    ensures PublisherJournal(w, events, i) ==
      [GET_CURRENT, GET_MANIFEST, PUT_CHUNK, PUT_MANIFEST, Swapped(CurrentKey, false),
       GET_CURRENT, GET_MANIFEST, PUT_CHUNK, PUT_MANIFEST, Swapped(CurrentKey, true)]
  {
    assert ChunkPuts(1) == [PUT_CHUNK] by { assert ChunkPuts(0) == []; }
    hide Possible, After, CollectorJournal, PublisherJournal, ChunkPuts, Initial;
    events := LostAttempt(w, i, k, winner, first, [digests[0], digests[1], digests[4]]);
    events := WriteAttempt(w, events, i, second, [digests[2]], digests[3]);
    events := Extend(w, events, SwapHead(i));
  }

  /** A pass that only marks: it lists, reads head and manifest, and deletes nothing. */
  lemma OrphanMarkJournal(w: World, j: nat, keys: set<Artifact>) returns (events: seq<Event>)
    requires j < |w.collectors| && w.collectors[j].CollectorIdle? && w.pending.authority.None?
    requires keys <= w.store.Keys && Collectable(w, keys)
    ensures Possible(w, events) && After(w, events).store == w.store && After(w, events).head == w.head
    ensures CollectorJournal(w, events, j) == [LIST_PREFIX, GET_CURRENT, GET_MANIFEST]
  {
    NoEvents(w, j);
    hide Possible, After, CollectorJournal, PublisherJournal;
    events := DiscoverAndCheck(w, [], j, keys);
  }
}
