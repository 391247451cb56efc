/** The event tree that `CampaignModel::setEvents` rebuilds, as values: the Event entities, the
    campaign's own event collection, and each phase of the rebuild as a function. The methods of
    module EventTreeBuild are proved to compute exactly these functions. */
module EventTree {
  import opened PhpValues

  /** A reference to an Event entity: its position in the heap of entities. */
  type Ref = nat

  /** An Event entity. `order` is kept in hundredths (the float 2 is 200, 1.01 is 101);
      `attached` records that `setCampaign` was called on the entity. */
  datatype Event = Event(id: Option<Key>, properties: map<string, Value>, order: int,
                         parent: Option<Ref>, attached: bool)

  /** `new Event()`. */
  const Fresh := Event(None, map[], 0, None, false)

  /** Session keys that are never applied as properties. */
  const Reserved: set<string> := {"id", "order", "parent"}

  /** The parent key that marks a root. */
  const RootKey: Key := "null"

  /** Every Event entity, and the campaign's collection `Campaign::$events`. */
  datatype Graph = Graph(heap: seq<Event>, members: map<Key, Ref>)

  ghost predicate Within(m: map<Key, Ref>, n: nat)
  {
    forall k | k in m :: m[k] < n
  }

  ghost predicate Linked(heap: seq<Event>)
  {
    forall r | 0 <= r < |heap| && heap[r].parent.Some? :: heap[r].parent.value < |heap|
  }

  ghost predicate Wf(g: Graph)
  {
    Linked(g.heap) && Within(g.members, |g.heap|)
  }

  /** The key an id stands for; the null id of a new Event is the key "", the offset PHP uses
      for null, and the only string `in_array(null, ...)` matches. */
  function IdKey(id: Option<Key>): Key
  {
    match id
    case None => ""
    case Some(k) => k
  }

  // ---------------------------------------------------------------------------------------
  // Deletions (lines 213-219)

  /** `removeEvent`: the collection without the entity `r`, under every key that holds it. */
  function WithoutRef(m: map<Key, Ref>, r: Ref): (m': map<Key, Ref>)
    ensures forall k :: k in m' <==> k in m && m[k] != r
    ensures forall k | k in m' :: m'[k] == m[k]
  {
    map k | k in m && m[k] != r :: m[k]
  }

  /** The campaign's collection after the deletion loop, which removes the entity of each
      deleted id that is still a key of the collection. */
  function AfterDeletions(existing: map<Key, Ref>, deleted: seq<Key>): (r: map<Key, Ref>)
    ensures forall k | k in r :: k in existing && r[k] == existing[k]
    decreases |deleted|
  {
    if deleted == [] then existing
    else
      var before := AfterDeletions(existing, deleted[..|deleted| - 1]);
      var d := deleted[|deleted| - 1];
      if d in before then WithoutRef(before, before[d]) else before
  }

  /** No deleted id that is a key of `existing` names the same entity as `k`. */
  ghost predicate Survives(existing: map<Key, Ref>, deleted: seq<Key>, k: Key)
    requires k in existing
  {
    forall j | 0 <= j < |deleted| && deleted[j] in existing :: existing[deleted[j]] != existing[k]
  }

  // ---------------------------------------------------------------------------------------
  // Materialising the session entries (lines 221-239)

  /** The working array `$events` of setEvents, with its keys in insertion order. */
  datatype Working = Working(heap: seq<Event>, events: map<Key, Ref>, keys: seq<Key>)

  /** The keys of `events` are exactly `keys`, each once. */
  ghost predicate Ordered(w: Working)
  {
    (forall k :: k in w.keys <==> k in w.events) &&
    (forall i, j | 0 <= i < j < |w.keys| :: w.keys[i] != w.keys[j])
  }

  predicate HasUnreserved(props: seq<(string, Value)>)
  {
    exists i | 0 <= i < |props| :: props[i].0 !in Reserved
  }

  /** One pass of the property loop: reserved keys are skipped; any other key calls its setter
      when the entity has one, and attaches the entity to the campaign. */
  function ApplyProperty(e: Event, f: string, v: Value, setters: set<string>): Event
  {
    if f in Reserved then e
    else (if f in setters then e.(properties := e.properties[f := v]) else e).(attached := true)
  }

  function ApplyProperties(e: Event, props: seq<(string, Value)>, setters: set<string>): (r: Event)
    ensures r.id == e.id && r.order == e.order && r.parent == e.parent
    decreases |props|
  {
    if props == [] then e
    else
      var n := |props| - 1;
      ApplyProperty(ApplyProperties(e, props[..n], setters), props[n].0, props[n].1, setters)
  }

  /** What an entry sets on its entity: each non-reserved key that has a setter, at its value. */
  ghost function Assigned(props: seq<(string, Value)>, setters: set<string>): map<string, Value>
  {
    map f | f in Names(props) && f !in Reserved && f in setters :: Lookup(props, f).value
  }

  /** The existing entity an entry names: its `id` is non-empty and a key of `existing`. */
  function ReuseTarget(existing: map<Key, Ref>, props: seq<(string, Value)>): (r: Option<Ref>)
    ensures r.Some? ==> r.value in existing.Values
    ensures Lookup(props, "id").None? ==> r.None?
    ensures Lookup(props, "id").Some? && IsEmpty(Lookup(props, "id").value) ==> r.None?
    ensures forall k | Lookup(props, "id") == Some(Str(k)) && k != "" && k != "0" ::
              r == if k in existing then Some(existing[k]) else None
  {
    var id := Lookup(props, "id");
    if id.Some? && !IsEmpty(id.value) && KeyOf(id.value).Some? && KeyOf(id.value).value in existing
    then Some(existing[KeyOf(id.value).value])
    else None
  }

  /** One iteration of the session loop for the entry `key => props`. */
  function MaterializeEntry(w: Working, existing: map<Key, Ref>, setters: set<string>,
                            key: Key, props: seq<(string, Value)>): (r: Working)
    requires Within(existing, |w.heap|)
    ensures |r.heap| == if ReuseTarget(existing, props).Some? then |w.heap| else |w.heap| + 1
    ensures r.events.Keys == if HasUnreserved(props) then w.events.Keys + {key} else w.events.Keys
    ensures forall q | 0 <= q < |w.heap| && (ReuseTarget(existing, props) != Some(q)) :: r.heap[q] == w.heap[q]
    ensures Within(w.events, |w.heap|) ==> Within(r.events, |r.heap|)
    ensures Linked(w.heap) ==> Linked(r.heap)
    ensures Ordered(w) ==> Ordered(r)
  {
    var target := ReuseTarget(existing, props);
    var heap := if target.Some? then w.heap else w.heap + [Fresh];
    var r := if target.Some? then target.value else |w.heap|;
    var heap' := heap[r := ApplyProperties(heap[r], props, setters)];
    if HasUnreserved(props) then
      Working(heap', w.events[key := r], if key in w.events then w.keys else w.keys + [key])
    else
      Working(heap', w.events, w.keys)
  }

  function Materialize(w: Working, existing: map<Key, Ref>, setters: set<string>,
                       session: seq<(Key, seq<(string, Value)>)>): (r: Working)
    requires Within(existing, |w.heap|)
    ensures |r.heap| >= |w.heap|
    ensures Within(w.events, |w.heap|) ==> Within(r.events, |r.heap|)
    ensures Linked(w.heap) ==> Linked(r.heap)
    ensures Ordered(w) ==> Ordered(r)
    decreases |session|
  {
    if session == [] then w
    else
      var n := |session| - 1;
      var before := Materialize(w, existing, setters, session[..n]);
      MaterializeEntry(before, existing, setters, session[n].0, session[n].1)
  }

  // ---------------------------------------------------------------------------------------
  // Order and parent (lines 241-319)

  datatype WalkEnd = Top | DeletedAncestor | MissingKey(key: Key) | Cycle

  /** The ancestor walk of setOrderAndParent from `cur`, looking at no more than `fuel`
      ancestors. The next ancestor is found by indexing the working array with the persisted id
      of the current one; a missing key is PHP's fatal call on null. */
  function Walk(heap: seq<Event>, working: map<Key, Ref>, deleted: seq<Key>, cur: Option<Ref>,
                fuel: nat): (end: WalkEnd)
    requires Linked(heap) && Within(working, |heap|)
    requires cur.Some? ==> cur.value < |heap|
    ensures cur.None? ==> end == Top
    ensures end.MissingKey? ==> end.key !in working && end.key !in deleted
    ensures end == Cycle ==> cur.Some?
    ensures cur.Some? && IdKey(heap[cur.value].id) in deleted && fuel > 0 ==> end == DeletedAncestor
    decreases fuel
  {
    match cur
    case None => Top
    case Some(p) =>
      if fuel == 0 then Cycle
      else
        var k := IdKey(heap[p].id);
        if k in deleted then DeletedAncestor
        else if k !in working then MissingKey(k)
        else Walk(heap, working, deleted, heap[working[k]].parent, fuel - 1)
  }

  /** Lines 245-283 run on a counter array `orders` (hundredths): both counters start at 1, a
      root's counter is incremented by 1 (the `floor` result is discarded) and a child's by 0.01. */
  function Counters(orders: map<Key, int>, eventId: Key, parentId: Key): (r: map<Key, int>)
    ensures r.Keys == orders.Keys + {eventId, parentId}
    ensures r[parentId] == (if parentId in orders then orders[parentId] else 100) +
                           (if parentId == RootKey then 100 else 1)
    ensures eventId != parentId ==>
              r[eventId] == if eventId in orders then orders[eventId]
                            else if parentId in orders then orders[parentId] else 100
    ensures forall k | k in orders && k != parentId :: r[k] == orders[k]
  {
    var o1 := if parentId in orders then orders else orders[parentId := 100];
    var o2 := if eventId in o1 then o1 else o1[eventId := o1[parentId]];
    if parentId == RootKey then o2[parentId := o2[parentId] + 100]
    else o2[parentId := o2[parentId] + 1]
  }

  /** The order a placed event gets. The closure captures `$orders` by value, so every call
      starts from the empty array: a root always gets 2 and a child always 1.01, whatever was
      placed before. */
  function PlacedOrder(eventId: Key, parentId: Key): (order: int)
    ensures order == if parentId == RootKey then 200 else 101
  {
    Counters(map[], eventId, parentId)[parentId]
  }

  /** setOrder, then setParent when the parent key is in the working array, or removeParent for
      a root. */
  function Place(e: Event, eventId: Key, parentId: Key, working: map<Key, Ref>): (placed: Event)
    ensures placed.id == e.id && placed.properties == e.properties && placed.attached == e.attached
    ensures placed.order == if parentId == RootKey then 200 else 101
    ensures parentId == RootKey ==> placed.parent.None?
    ensures parentId != RootKey && parentId in working ==> placed.parent == Some(working[parentId])
    ensures parentId != RootKey && parentId !in working ==> placed.parent == e.parent
  {
    e.(order := PlacedOrder(eventId, parentId),
       parent := if parentId == RootKey then None
                 else if parentId in working then Some(working[parentId])
                 else e.parent)
  }

  /** One call of the closure setOrderAndParent. */
  function OrderAndParent(g: Graph, working: map<Key, Ref>, deleted: seq<Key>,
                          eventId: Key, parentId: Key): (res: (Graph, WalkEnd))
    requires Wf(g) && Within(working, |g.heap|) && eventId in working
    ensures Wf(res.0) && |res.0.heap| == |g.heap|
  {
    var r := working[eventId];
    var end := Walk(g.heap, working, deleted, g.heap[r].parent, |g.heap|);
    if end == Top then
      (Graph(g.heap[r := Place(g.heap[r], eventId, parentId, working)], g.members[eventId := r]), end)
    else if end == DeletedAncestor then
      (Graph(g.heap, WithoutRef(g.members, r)), end)
    else
      (g, end)
  }

  /** One call to make: a child key and its parent key, or `None` when the parent key is read
      from the entity's current parent at the time of the call. */
  datatype Call = Call(child: Key, parent: Option<Key>)

  /** The parent key of the no-reorder branch: "null" without a parent, else the parent's id. */
  function ParentKey(heap: seq<Event>, r: Ref): (k: Key)
    requires r < |heap| && Linked(heap)
    ensures heap[r].parent.None? ==> k == RootKey
    ensures heap[r].parent.Some? ==> k == IdKey(heap[heap[r].parent.value].id)
  {
    match heap[r].parent
    case None => RootKey
    case Some(p) => IdKey(heap[p].id)
  }

  /** How setEvents ends: normally, in PHP's fatal error, or never (the walk cycles). */
  datatype Outcome = Completed | Crashed(missing: Key) | Hangs

  /** How one call of the closure bears on setEvents as a whole. */
  function OutcomeOf(end: WalkEnd): Outcome
  {
    match end
    case MissingKey(k) => Crashed(k)
    case Cycle => Hangs
    case _ => Completed
  }

  function RunCalls(g: Graph, working: map<Key, Ref>, deleted: seq<Key>, calls: seq<Call>)
    : (res: (Graph, Outcome))
    requires Wf(g) && Within(working, |g.heap|)
    requires forall i | 0 <= i < |calls| :: calls[i].child in working
    ensures Wf(res.0) && |res.0.heap| == |g.heap|
    decreases |calls|
  {
    if calls == [] then (g, Completed)
    else
      var n := |calls| - 1;
      var before := RunCalls(g, working, deleted, calls[..n]);
      if before.1 != Completed then before
      else
        var c := calls[n];
        var parentId := if c.parent.Some? then c.parent.value
                        else ParentKey(before.0.heap, working[c.child]);
        var step := OrderAndParent(before.0, working, deleted, c.child, parentId);
        (step.0, OutcomeOf(step.1))
  }

  /** The reorder branch: the entries of the reorder map whose child is in the working array. */
  function OrderedCalls(sessionOrder: seq<(Key, Key)>, working: map<Key, Ref>): (calls: seq<Call>)
    ensures forall i | 0 <= i < |calls| :: calls[i].child in working && calls[i].parent.Some?
    decreases |sessionOrder|
  {
    if sessionOrder == [] then []
    else
      var n := |sessionOrder| - 1;
      OrderedCalls(sessionOrder[..n], working) +
        (if sessionOrder[n].0 in working then [Call(sessionOrder[n].0, Some(sessionOrder[n].1))] else [])
  }

  /** The calls of the branch without a reorder map: one per key, in order, each reading its
      parent key from the entity at the time of the call. */
  function PlainCalls(keys: seq<Key>): (calls: seq<Call>)
    ensures |calls| == |keys|
    ensures forall i | 0 <= i < |keys| :: calls[i] == Call(keys[i], None)
  {
    seq(|keys|, i requires 0 <= i < |keys| => Call(keys[i], None))
  }

  /** The calls setEvents makes: the reorder map's when it is not empty, else one per entry of
      the working array, in its order. */
  function Schedule(sessionOrder: seq<(Key, Key)>, w: Working): (calls: seq<Call>)
    requires Ordered(w)
    ensures forall i | 0 <= i < |calls| :: calls[i].child in w.events
  {
    if |sessionOrder| > 0 then OrderedCalls(sessionOrder, w.events)
    else PlainCalls(w.keys)
  }

  /** All of setEvents. */
  function Rebuild(g: Graph, session: seq<(Key, seq<(string, Value)>)>, sessionOrder: seq<(Key, Key)>,
                   deleted: seq<Key>, setters: set<string>): (res: (Graph, Outcome))
    requires Wf(g)
    ensures Wf(res.0)
  {
    var existing := AfterDeletions(g.members, deleted);
    var w := Materialize(Working(g.heap, map[], []), existing, setters, session);
    RunCalls(Graph(w.heap, existing), w.events, deleted, Schedule(sessionOrder, w))
  }
}
