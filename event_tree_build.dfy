/** `CampaignModel::setEvents` as the code runs it: a campaign object whose event collection and
    Event entities change in place, a deletion loop, a session loop with a nested property
    loop, the ancestor walk with its flags, and the closure setOrderAndParent. Each method is
    proved to compute exactly the matching function of module EventTree. */
module EventTreeBuild {
  import opened PhpValues
  import opened EventTree
  import opened EventTreeLemmas

  /** A Campaign entity together with the Event entities it can reach. */
  class Campaign {
    /** Every Event entity, by reference. */
    var heap: seq<Event>
    /** `Campaign::$events`: the campaign's events by key. */
    var events: map<Key, Ref>

    ghost predicate Valid()
      reads this
    {
      Wf(Graph(heap, events))
    }

    function State(): Graph
      reads this
    {
      Graph(heap, events)
    }

    constructor (g: Graph)
      requires Wf(g)
      ensures Valid() && State() == g
    {
      heap := g.heap;
      events := g.members;
    }

    /** `removeEvent($event)`: the entity leaves the collection under every key that holds it. */
    method RemoveEvent(r: Ref)
      modifies this
      requires Valid()
      ensures Valid() && heap == old(heap) && events == WithoutRef(old(events), r)
    {
      events := WithoutRef(events, r);
    }

    /** `addEvent($key, $event)`. */
    method AddEvent(key: Key, r: Ref)
      modifies this
      requires Valid() && r < |heap|
      ensures Valid() && heap == old(heap) && events == old(events)[key := r]
    {
      events := events[key := r];
    }

    /** `new Event()`: a fresh entity, in no collection yet. */
    method NewEvent() returns (r: Ref)
      modifies this
      requires Valid()
      ensures Valid() && r == |old(heap)| && heap == old(heap) + [Fresh] && events == old(events)
    {
      r := |heap|;
      heap := heap + [Fresh];
    }

    /** The entity's setter `set<Field>($v)`, found by `method_exists`, on the entity `r`. */
    method SetProperty(r: Ref, f: string, v: Value)
      modifies this
      requires Valid() && r < |heap|
      ensures Valid() && events == old(events)
      ensures heap == old(heap)[r := old(heap)[r].(properties := old(heap)[r].properties[f := v])]
    {
      heap := heap[r := heap[r].(properties := heap[r].properties[f := v])];
    }

    /** `setCampaign($entity)` on the entity `r`. */
    method SetCampaign(r: Ref)
      modifies this
      requires Valid() && r < |heap|
      ensures Valid() && events == old(events) && heap == old(heap)[r := old(heap)[r].(attached := true)]
    {
      heap := heap[r := heap[r].(attached := true)];
    }

    /** `setOrder($order)`, the order in hundredths. */
    method SetOrder(r: Ref, order: int)
      modifies this
      requires Valid() && r < |heap|
      ensures Valid() && events == old(events) && heap == old(heap)[r := old(heap)[r].(order := order)]
    {
      heap := heap[r := heap[r].(order := order)];
    }

    /** `setParent($parent)`. */
    method SetParent(r: Ref, p: Ref)
      modifies this
      requires Valid() && r < |heap| && p < |heap|
      ensures Valid() && events == old(events) && heap == old(heap)[r := old(heap)[r].(parent := Some(p))]
    {
      heap := heap[r := heap[r].(parent := Some(p))];
    }

    /** `removeParent()`. */
    method RemoveParent(r: Ref)
      modifies this
      requires Valid() && r < |heap|
      ensures Valid() && events == old(events) && heap == old(heap)[r := old(heap)[r].(parent := None)]
    {
      heap := heap[r := heap[r].(parent := None)];
    }
  }

  /** Lines 213-219: remove the entity of every deleted id that is still a key of the collection,
      which `$existingEvents` reads live. */
  method DeleteEvents(c: Campaign, deleted: seq<Key>)
    modifies c
    requires c.Valid()
    ensures c.Valid() && c.heap == old(c.heap) && c.events == AfterDeletions(old(c.events), deleted)
  {
    for i := 0 to |deleted|
      invariant c.Valid() && c.heap == old(c.heap)
      invariant c.events == AfterDeletions(old(c.events), deleted[..i])
    {
      var deleteMe := deleted[i];
      if deleteMe in c.events {
        c.RemoveEvent(c.events[deleteMe]);
      }
      assert deleted[..i + 1][..i] == deleted[..i];
    }
    assert deleted[..|deleted|] == deleted;
  }

  /** Lines 227-238: the property loop of the entry `id => properties` on the entity `r`.
      Reserved keys are skipped; any other key calls its setter when there is one, attaches the
      entity to the campaign and registers it under `id` in the working array. */
  method ApplyEntry(c: Campaign, r: Ref, id: Key, properties: seq<(string, Value)>,
                    setters: set<string>, events: map<Key, Ref>, keys: seq<Key>)
    returns (events': map<Key, Ref>, keys': seq<Key>)
    modifies c
    requires c.Valid() && r < |c.heap|
    ensures c.Valid() && c.events == old(c.events)
    ensures c.heap == old(c.heap)[r := ApplyProperties(old(c.heap)[r], properties, setters)]
    ensures (events', keys') ==
            if HasUnreserved(properties)
            then (events[id := r], if id in events then keys else keys + [id])
            else (events, keys)
  {
    events', keys' := events, keys;
    for j := 0 to |properties|
      invariant c.Valid() && c.events == old(c.events) && |c.heap| == |old(c.heap)|
      invariant c.heap == old(c.heap)[r := ApplyProperties(old(c.heap)[r], properties[..j], setters)]
      invariant (events', keys') ==
                if HasUnreserved(properties[..j])
                then (events[id := r], if id in events then keys else keys + [id])
                else (events, keys)
    {
      var (f, v) := properties[j];
      assert properties[..j + 1] == properties[..j] + [(f, v)];
      assert properties[..j + 1][..j] == properties[..j];
      AssignedSnoc(properties[..j], f, v, setters);
      ghost var had := HasUnreserved(properties[..j]);
      assert HasUnreserved(properties[..j + 1]) == (had || f !in Reserved);
      if f !in Reserved {
        if f in setters {
          c.SetProperty(r, f, v);
        }
        c.SetCampaign(r);
        if had {
          assert id in events';
          assert events'[id := r] == events';
        } else {
          assert events' == events && keys' == keys;
        }
        if id !in events' {
          keys' := keys' + [id];
        }
        events' := events'[id := r];
      }
    }
    assert properties[..|properties|] == properties;
  }

  /** Lines 222-239: reuse the entity an entry's `id` names in the collection, or create one,
      apply the entry's properties, and build the working array `$events` (returned with its
      keys in insertion order). */
  method MaterializeSession(c: Campaign, existing: map<Key, Ref>,
                            session: seq<(Key, seq<(string, Value)>)>, setters: set<string>)
    returns (events: map<Key, Ref>, keys: seq<Key>)
    modifies c
    requires c.Valid() && Within(existing, |c.heap|)
    ensures c.Valid() && c.events == old(c.events)
    ensures Working(c.heap, events, keys) ==
            Materialize(Working(old(c.heap), map[], []), existing, setters, session)
  {
    events, keys := map[], [];
    ghost var w0 := Working(c.heap, map[], []);
    for i := 0 to |session|
      invariant c.Valid() && c.events == old(c.events) && |c.heap| >= |w0.heap|
      invariant Working(c.heap, events, keys) == Materialize(w0, existing, setters, session[..i])
    {
      var (id, properties) := session[i];
      ghost var before := Working(c.heap, events, keys);
      var target := ReuseTarget(existing, properties);
      var r: Ref;
      if target.Some? {
        r := target.value;
      } else {
        r := c.NewEvent();
      }
      events, keys := ApplyEntry(c, r, id, properties, setters, events, keys);
      assert Working(c.heap, events, keys) == MaterializeEntry(before, existing, setters, id, properties);
      assert session[..i + 1][..i] == session[..i];
    }
    assert session[..|session|] == session;
  }

  /** Lines 254-269: walk up from `start` until there is no parent or a parent's id is deleted.
      The next parent is `$events[$parent->getId()]->getParent()`; a missing key is PHP's fatal
      error, and more than `|heap|` steps mean the walk has entered a cycle. */
  method AncestorWalk(heap: seq<Event>, working: map<Key, Ref>, deleted: seq<Key>, start: Option<Ref>)
    returns (end: WalkEnd)
    requires Linked(heap) && Within(working, |heap|) && (start.Some? ==> start.value < |heap|)
    ensures end == Walk(heap, working, deleted, start, |heap|)
  {
    var atTopParent, parentDeleted := false, false;
    var parent: Option<Ref> := start;
    var fuel: nat := |heap|;
    end := Top;
    while !atTopParent && !parentDeleted
      invariant parent.Some? ==> parent.value < |heap|
      invariant Walk(heap, working, deleted, start, |heap|) ==
                if atTopParent || parentDeleted then end else Walk(heap, working, deleted, parent, fuel)
      decreases fuel, if atTopParent || parentDeleted then 0 else 1
    {
      if parent == None {
        atTopParent := true;
        end := Top;
      } else if fuel == 0 {
        return Cycle;
      } else {
        var id := IdKey(heap[parent.value].id);
        if id in deleted {
          parentDeleted := true;
          end := DeletedAncestor;
        } else if id !in working {
          return MissingKey(id);
        } else {
          parent := heap[working[id]].parent;
          fuel := fuel - 1;
        }
      }
    }
  }

  /** Lines 244-296, the closure setOrderAndParent. Its `$orders` is a copy taken when the
      closure was made, so it starts empty on every call. */
  method SetOrderAndParent(c: Campaign, working: map<Key, Ref>, deleted: seq<Key>,
                           eventId: Key, parentId: Key)
    returns (end: WalkEnd)
    modifies c
    requires c.Valid() && Within(working, |c.heap|) && eventId in working
    ensures c.Valid()
    ensures (c.State(), end) == OrderAndParent(old(c.State()), working, deleted, eventId, parentId)
  {
    var orders: map<Key, int> := map[];
    if parentId !in orders {
      orders := orders[parentId := 100];
    }
    if eventId !in orders {
      orders := orders[eventId := orders[parentId]];
    }
    var r := working[eventId];
    end := AncestorWalk(c.heap, working, deleted, c.heap[r].parent);
    if end == DeletedAncestor {
      c.RemoveEvent(r);
      return;
    }
    if end != Top {
      // PHP stops with a fatal error, or never leaves the walk.
      return;
    }
    if parentId == RootKey {
      // `floor` is called on the counter and its result is dropped.
      orders := orders[parentId := orders[parentId] + 100];
    } else {
      orders := orders[parentId := orders[parentId] + 1];
    }
    assert orders[parentId] == PlacedOrder(eventId, parentId);
    ghost var placed := Place(c.heap[r], eventId, parentId, working);
    c.SetOrder(r, orders[parentId]);
    if parentId != RootKey {
      if parentId in working {
        c.SetParent(r, working[parentId]);
      }
    } else {
      c.RemoveParent(r);
    }
    assert c.heap == old(c.heap)[r := placed];
    c.AddEvent(eventId, r);
  }

  /** Lines 298-308, the reorder branch: each entry of the map whose child key is in the working
      array is placed under the parent key the map gives, in the map's order. */
  method RunReordered(c: Campaign, events: map<Key, Ref>, deleted: seq<Key>, sessionOrder: seq<(Key, Key)>)
    returns (outcome: Outcome)
    modifies c
    requires c.Valid() && Within(events, |c.heap|)
    ensures c.Valid()
    ensures (c.State(), outcome) == RunCalls(old(c.State()), events, deleted, OrderedCalls(sessionOrder, events))
  {
    ghost var g := c.State();
    outcome := Completed;
    var i := 0;
    while i < |sessionOrder| && outcome == Completed
      invariant 0 <= i <= |sessionOrder|
      invariant c.Valid() && |c.heap| == |g.heap|
      invariant (c.State(), outcome) == RunCalls(g, events, deleted, OrderedCalls(sessionOrder[..i], events))
    {
      var child, parent := sessionOrder[i].0, sessionOrder[i].1;
      OrderedCallsStep(sessionOrder, i, events);
      if child in events {
        RunCallsSnoc(g, events, deleted, OrderedCalls(sessionOrder[..i], events), Call(child, Some(parent)));
        var end := SetOrderAndParent(c, events, deleted, child, parent);
        outcome := OutcomeOf(end);
      } else {
        assert OrderedCalls(sessionOrder[..i + 1], events) == OrderedCalls(sessionOrder[..i], events);
      }
      i := i + 1;
    }
    OrderedCallsRest(g, events, deleted, sessionOrder, i);
  }

  /** Lines 313-317: one entry of the plain branch, under the id of its entity's parent at that
      moment, or "null" when it has none. */
  method PlaceUnderCurrentParent(c: Campaign, ghost g: Graph, events: map<Key, Ref>, deleted: seq<Key>,
                                 ghost calls: seq<Call>, id: Key)
    returns (outcome: Outcome)
    modifies c
    requires Wf(g) && Within(events, |g.heap|) && id in events
    requires forall i | 0 <= i < |calls| :: calls[i].child in events
    requires c.Valid() && (c.State(), Completed) == RunCalls(g, events, deleted, calls)
    ensures c.Valid()
    ensures (c.State(), outcome) == RunCalls(g, events, deleted, calls + [Call(id, None)])
  {
    var parentId := ParentKey(c.heap, events[id]);
    RunCallsPlainStep(g, events, deleted, calls, id);
    var end := SetOrderAndParent(c, events, deleted, id, parentId);
    outcome := OutcomeOf(end);
  }

  /** Lines 309-318, without a reorder map: every entry of the working array in turn, under the
      id of its entity's parent at that moment, or "null" when it has none. */
  method RunInOrder(c: Campaign, events: map<Key, Ref>, keys: seq<Key>, deleted: seq<Key>)
    returns (outcome: Outcome)
    modifies c
    requires c.Valid() && Within(events, |c.heap|)
    requires forall i | 0 <= i < |keys| :: keys[i] in events
    ensures c.Valid()
    ensures (c.State(), outcome) ==
            RunCalls(old(c.State()), events, deleted, PlainCalls(keys))
  {
    ghost var g := c.State();
    ghost var calls := PlainCalls(keys);
    outcome := Completed;
    var i := 0;
    while i < |keys| && outcome == Completed
      invariant 0 <= i <= |keys|
      invariant c.Valid() && |c.heap| == |g.heap|
      invariant forall j | 0 <= j < |calls| :: calls[j].child in events
      invariant (c.State(), outcome) == RunCalls(g, events, deleted, calls[..i])
    {
      assert calls[..i + 1] == calls[..i] + [Call(keys[i], None)];
      outcome := PlaceUnderCurrentParent(c, g, events, deleted, calls[..i], keys[i]);
      i := i + 1;
    }
    RunCallsPrefixFinal(g, events, deleted, calls, i);
  }

  /** Lines 211-320, all of setEvents. Where PHP stops with a fatal error the method returns
      `Crashed` with the campaign as it was at that point; where PHP's walk never ends it
      returns `Hangs` (lemma CycleNeverEnds shows the walk indeed never ends). */
  method SetEvents(c: Campaign, session: seq<(Key, seq<(string, Value)>)>,
                   sessionOrder: seq<(Key, Key)>, deleted: seq<Key>, setters: set<string>)
    returns (outcome: Outcome)
    modifies c
    requires c.Valid()
    ensures c.Valid()
    ensures (c.State(), outcome) == Rebuild(old(c.State()), session, sessionOrder, deleted, setters)
  {
    ghost var g := c.State();
    DeleteEvents(c, deleted);
    var existingEvents := c.events;
    assert existingEvents == AfterDeletions(g.members, deleted);
    var events, keys := MaterializeSession(c, existingEvents, session, setters);
    ghost var w := Working(c.heap, events, keys);
    assert w == Materialize(Working(g.heap, map[], []), existingEvents, setters, session);
    assert Ordered(w);
    assert c.State() == Graph(w.heap, existingEvents);
    assert Rebuild(g, session, sessionOrder, deleted, setters) ==
           RunCalls(c.State(), events, deleted, Schedule(sessionOrder, w));
    if |sessionOrder| > 0 {
      outcome := RunReordered(c, events, deleted, sessionOrder);
    } else {
      assert Schedule(sessionOrder, w) == PlainCalls(keys);
      outcome := RunInOrder(c, events, keys, deleted);
    }
  }
}
