/** What setEvents guarantees, proved about the functions of module EventTree. */
module EventTreeLemmas {
  import opened PhpValues
  import opened EventTree

  // ---------------------------------------------------------------------------------------
  // Deletions

  /** After the deletion loop a key stays exactly when no deleted id that is a key of the
      collection names the same entity; kept keys keep their entity. */
  lemma {:induction false} AfterDeletionsExact(existing: map<Key, Ref>, deleted: seq<Key>)
    ensures forall k :: k in AfterDeletions(existing, deleted) <==>
                        k in existing && Survives(existing, deleted, k)
    decreases |deleted|
  {
    if deleted != [] {
      var n := |deleted| - 1;
      var p := deleted[..n];
      var d := deleted[n];
      AfterDeletionsExact(existing, p);
      var before := AfterDeletions(existing, p);
      forall k | k in existing
        ensures Survives(existing, deleted, k) <==>
                Survives(existing, p, k) && (d in existing ==> existing[d] != existing[k])
      {
        assert forall j | 0 <= j < n :: deleted[j] == p[j];
      }
      if d !in before && d in existing {
        assert !Survives(existing, p, d);
      }
    }
  }

  /** Every deleted id is gone from the collection; an id that is not a key changes nothing. */
  lemma DeletedIdsRemoved(existing: map<Key, Ref>, deleted: seq<Key>, d: Key)
    ensures forall j | 0 <= j < |deleted| :: deleted[j] !in AfterDeletions(existing, deleted)
    ensures d !in existing ==> AfterDeletions(existing, deleted + [d]) == AfterDeletions(existing, deleted)
  {
    AfterDeletionsExact(existing, deleted);
    assert (deleted + [d])[..|deleted|] == deleted;
  }

  // ---------------------------------------------------------------------------------------
  // Session entries

  /** Adding one pair to an entry adds it to what the entry sets, when it is settable. */
  lemma AssignedSnoc(p: seq<(string, Value)>, f: string, v: Value, setters: set<string>)
    ensures Assigned(p + [(f, v)], setters) ==
            if f !in Reserved && f in setters then Assigned(p, setters)[f := v] else Assigned(p, setters)
    ensures HasUnreserved(p + [(f, v)]) == (HasUnreserved(p) || f !in Reserved)
  {
    var props := p + [(f, v)];
    assert props[..|p|] == p;
    NamesSnoc(p, f, v);
    if HasUnreserved(props) && f in Reserved {
      var i :| 0 <= i < |props| && props[i].0 !in Reserved;
      assert p[i] == props[i];
    }
    if HasUnreserved(p) {
      var i :| 0 <= i < |p| && p[i].0 !in Reserved;
      assert props[i] == p[i];
    }
    assert props[|p|].0 == f;
  }

  /** The property loop sets exactly the non-reserved keys that have a setter, to their values;
      it attaches the entity exactly when some key is not reserved; `id`, `order` and `parent`
      are never applied. */
  lemma {:induction false} ApplyPropertiesEffect(e: Event, props: seq<(string, Value)>,
                                                 setters: set<string>)
    ensures ApplyProperties(e, props, setters).properties == e.properties + Assigned(props, setters)
    ensures ApplyProperties(e, props, setters).attached == (e.attached || HasUnreserved(props))
    ensures forall f | f in Reserved ::
              (f in ApplyProperties(e, props, setters).properties <==> f in e.properties) &&
              (f in e.properties ==> ApplyProperties(e, props, setters).properties[f] == e.properties[f])
    decreases |props|
  {
    if props != [] {
      var n := |props| - 1;
      var p := props[..n];
      var (f, v) := props[n];
      ApplyPropertiesEffect(e, p, setters);
      AssignedSnoc(p, f, v, setters);
      assert props == p + [(f, v)];
      var e1 := ApplyProperties(e, p, setters);
      if f !in Reserved && f in setters {
        assert e1.properties[f := v] == e.properties + Assigned(p, setters)[f := v];
      }
    }
  }

  /** An entry reuses the existing entity exactly when its `id` is non-empty and a key of the
      collection, and otherwise creates a new Event; the entity gets the entry's settable
      properties and no other entity changes; the entry's key is registered in the working
      array exactly when one of its keys is not reserved. */
  lemma MaterializeEntryEffect(w: Working, existing: map<Key, Ref>, setters: set<string>,
                               key: Key, props: seq<(string, Value)>)
    requires Within(existing, |w.heap|)
    ensures var w' := MaterializeEntry(w, existing, setters, key, props);
            var named := Lookup(props, "id");
            var reuse := named.Some? && !IsEmpty(named.value) && KeyOf(named.value).Some? &&
                         KeyOf(named.value).value in existing;
            var r := if reuse then existing[KeyOf(named.value).value] else |w.heap|;
            && |w'.heap| == |w.heap| + (if reuse then 0 else 1)
            && (!reuse ==> w'.heap[r].id == None && w'.heap[r].parent == None)
            && (reuse ==> w'.heap[r].id == w.heap[r].id && w'.heap[r].parent == w.heap[r].parent)
            && w'.heap[r].properties ==
               (if reuse then w.heap[r].properties else map[]) + Assigned(props, setters)
            && (forall q | 0 <= q < |w.heap| && q != r :: w'.heap[q] == w.heap[q])
            && (key in w'.events <==> key in w.events || HasUnreserved(props))
            && (HasUnreserved(props) ==> w'.events[key] == r)
            && (forall k | k != key :: (k in w'.events <==> k in w.events) &&
                                       (k in w.events ==> w'.events[k] == w.events[k]))
  {
    var target := ReuseTarget(existing, props);
    var heap := if target.Some? then w.heap else w.heap + [Fresh];
    var r := if target.Some? then target.value else |w.heap|;
    ApplyPropertiesEffect(heap[r], props, setters);
  }

  /** The keys with at least one non-reserved property, in session order. */
  function UnreservedKeys(session: seq<(Key, seq<(string, Value)>)>): seq<Key>
    decreases |session|
  {
    if session == [] then []
    else
      var n := |session| - 1;
      UnreservedKeys(session[..n]) + (if HasUnreserved(session[n].1) then [session[n].0] else [])
  }

  /** The working-array part of one iteration of the session loop. */
  lemma EntryKeys(w: Working, existing: map<Key, Ref>, setters: set<string>,
                  key: Key, props: seq<(string, Value)>)
    requires Within(existing, |w.heap|)
    ensures var w' := MaterializeEntry(w, existing, setters, key, props);
            && |w'.heap| >= |w.heap|
            && (forall k :: k in w'.events <==> k in w.events || (k == key && HasUnreserved(props)))
            && w'.keys == (if HasUnreserved(props) && key !in w.events then w.keys + [key] else w.keys)
            && (forall k | k in w.events && k != key :: w'.events[k] == w.events[k])
            && (HasUnreserved(props) ==>
                  w'.events[key] == (if ReuseTarget(existing, props).Some?
                                     then ReuseTarget(existing, props).value else |w.heap|))
  {
  }

  /** The keys of the entries with a non-reserved key. */
  function RegisteredKeys(session: seq<(Key, seq<(string, Value)>)>): set<Key>
  {
    set i | 0 <= i < |session| && HasUnreserved(session[i].1) :: session[i].0
  }

  lemma RegisteredKeysSnoc(p: seq<(Key, seq<(string, Value)>)>, key: Key, props: seq<(string, Value)>)
    ensures RegisteredKeys(p + [(key, props)]) ==
            RegisteredKeys(p) + (if HasUnreserved(props) then {key} else {})
  {
    var all := p + [(key, props)];
    forall k ensures k in RegisteredKeys(all) <==> k in RegisteredKeys(p) + (if HasUnreserved(props) then {key} else {}) {
      if k in RegisteredKeys(all) {
        var i :| 0 <= i < |all| && HasUnreserved(all[i].1) && all[i].0 == k;
        if i < |p| {
          assert p[i] == all[i];
        }
      }
      if k in RegisteredKeys(p) {
        var i :| 0 <= i < |p| && HasUnreserved(p[i].1) && p[i].0 == k;
        assert all[i] == p[i];
      }
      if k == key && HasUnreserved(props) {
        assert all[|p|] == (key, props);
      }
    }
  }

  /** Starting from an empty working array, the session loop registers exactly the entries with
      a non-reserved key. */
  lemma {:induction false} MaterializeRegisters(w: Working, existing: map<Key, Ref>, setters: set<string>,
                                                session: seq<(Key, seq<(string, Value)>)>)
    requires Within(existing, |w.heap|)
    requires w.events == map[]
    ensures Materialize(w, existing, setters, session).events.Keys == RegisteredKeys(session)
    decreases |session|
  {
    if session != [] {
      var n := |session| - 1;
      var p := session[..n];
      MaterializeRegisters(w, existing, setters, p);
      assert session == p + [(session[n].0, session[n].1)];
      RegisteredKeysSnoc(p, session[n].0, session[n].1);
    }
  }

  /** With distinct session keys, the working array keeps those entries in session order, each
      under an entity that is either in the collection or new. */
  lemma {:induction false} MaterializeKeys(w: Working, existing: map<Key, Ref>, setters: set<string>,
                                           session: seq<(Key, seq<(string, Value)>)>)
    requires Within(existing, |w.heap|)
    requires w.events == map[] && w.keys == []
    requires DistinctKeys(session)
    ensures var r := Materialize(w, existing, setters, session);
            && r.keys == UnreservedKeys(session)
            && (forall k | k in r.events :: r.events[k] in existing.Values || |w.heap| <= r.events[k])
    decreases |session|
  {
    if session != [] {
      var n := |session| - 1;
      var p := session[..n];
      assert DistinctKeys(p);
      MaterializeKeys(w, existing, setters, p);
      MaterializeRegisters(w, existing, setters, p);
      var before := Materialize(w, existing, setters, p);
      var key, props := session[n].0, session[n].1;
      assert key !in before.events;
      EntryKeys(before, existing, setters, key, props);
    }
  }

  // ---------------------------------------------------------------------------------------
  // The ancestor walk

  /** The walk goes on from `s`: there is an ancestor, its id is not deleted and it is a key of
      the working array. */
  ghost predicate Continues(heap: seq<Event>, working: map<Key, Ref>, deleted: seq<Key>, s: Option<Ref>)
    requires s.Some? ==> s.value < |heap|
  {
    s.Some? && IdKey(heap[s.value].id) !in deleted && IdKey(heap[s.value].id) in working
  }

  /** The ancestor after `s`, or `s` itself once the walk stops. */
  ghost function Next(heap: seq<Event>, working: map<Key, Ref>, deleted: seq<Key>, s: Option<Ref>)
    : (t: Option<Ref>)
    requires Linked(heap) && Within(working, |heap|) && (s.Some? ==> s.value < |heap|)
    ensures t.Some? ==> t.value < |heap|
  {
    if Continues(heap, working, deleted, s) then heap[working[IdKey(heap[s.value].id)]].parent else s
  }

  /** The `n`-th state of the walk from `s`. */
  ghost function Ancestor(heap: seq<Event>, working: map<Key, Ref>, deleted: seq<Key>,
                          s: Option<Ref>, n: nat): (t: Option<Ref>)
    requires Linked(heap) && Within(working, |heap|) && (s.Some? ==> s.value < |heap|)
    ensures t.Some? ==> t.value < |heap|
    decreases n
  {
    if n == 0 then s else Ancestor(heap, working, deleted, Next(heap, working, deleted, s), n - 1)
  }

  /** The `m`-th state of the walk from `s` is an ancestor with a deleted id, and the walk went
      on through every nearer one. */
  ghost predicate ReachesDeleted(heap: seq<Event>, working: map<Key, Ref>, deleted: seq<Key>,
                                 s: Option<Ref>, m: nat)
    requires Linked(heap) && Within(working, |heap|) && (s.Some? ==> s.value < |heap|)
  {
    && (forall m' | 0 <= m' < m :: Continues(heap, working, deleted, Ancestor(heap, working, deleted, s, m')))
    && Ancestor(heap, working, deleted, s, m).Some?
    && IdKey(heap[Ancestor(heap, working, deleted, s, m).value].id) in deleted
  }

  lemma ReachesDeletedShift(heap: seq<Event>, working: map<Key, Ref>, deleted: seq<Key>,
                            s: Option<Ref>, m: nat)
    requires Linked(heap) && Within(working, |heap|) && (s.Some? ==> s.value < |heap|)
    requires Continues(heap, working, deleted, s)
    ensures !ReachesDeleted(heap, working, deleted, s, 0)
    ensures ReachesDeleted(heap, working, deleted, s, m + 1) <==>
            ReachesDeleted(heap, working, deleted, Next(heap, working, deleted, s), m)
  {
    var t := Next(heap, working, deleted, s);
    forall m' | 0 <= m' ensures Ancestor(heap, working, deleted, s, m' + 1) == Ancestor(heap, working, deleted, t, m') {
    }
    if ReachesDeleted(heap, working, deleted, t, m) {
      forall m' | 0 <= m' < m + 1 ensures Continues(heap, working, deleted, Ancestor(heap, working, deleted, s, m')) {
        if m' > 0 {
          assert Continues(heap, working, deleted, Ancestor(heap, working, deleted, t, m' - 1));
        }
      }
    }
    if ReachesDeleted(heap, working, deleted, s, m + 1) {
      forall m' | 0 <= m' < m ensures Continues(heap, working, deleted, Ancestor(heap, working, deleted, t, m')) {
        assert Continues(heap, working, deleted, Ancestor(heap, working, deleted, s, m' + 1));
      }
    }
  }

  /** The walk meets a deleted id exactly when some ancestor within reach has a deleted id and
      every nearer ancestor lets the walk go on. */
  lemma {:induction false} WalkMeetsDeleted(heap: seq<Event>, working: map<Key, Ref>, deleted: seq<Key>,
                                            s: Option<Ref>, fuel: nat)
    requires Linked(heap) && Within(working, |heap|) && (s.Some? ==> s.value < |heap|)
    ensures Walk(heap, working, deleted, s, fuel) == DeletedAncestor <==>
            exists m | 0 <= m < fuel :: ReachesDeleted(heap, working, deleted, s, m)
    decreases fuel
  {
    if fuel > 0 && Continues(heap, working, deleted, s) {
      var t := Next(heap, working, deleted, s);
      WalkMeetsDeleted(heap, working, deleted, t, fuel - 1);
      forall m | 0 <= m < fuel - 1
        ensures ReachesDeleted(heap, working, deleted, s, m + 1) <==> ReachesDeleted(heap, working, deleted, t, m)
      {
        ReachesDeletedShift(heap, working, deleted, s, m);
      }
      ReachesDeletedShift(heap, working, deleted, s, 0);
      if exists m | 0 <= m < fuel :: ReachesDeleted(heap, working, deleted, s, m) {
        var m :| 0 <= m < fuel && ReachesDeleted(heap, working, deleted, s, m);
        assert ReachesDeleted(heap, working, deleted, t, m - 1);
      }
    } else if fuel > 0 {
      if exists m | 0 <= m < fuel :: ReachesDeleted(heap, working, deleted, s, m) {
        var m :| 0 <= m < fuel && ReachesDeleted(heap, working, deleted, s, m);
        assert m > 0 ==> Ancestor(heap, working, deleted, s, 0) == s;
      }
      if s.Some? && IdKey(heap[s.value].id) in deleted {
        assert ReachesDeleted(heap, working, deleted, s, 0);
      }
    }
  }

  /** The walk goes on from each of its first `n` states. */
  ghost predicate GoesOn(heap: seq<Event>, working: map<Key, Ref>, deleted: seq<Key>, s: Option<Ref>, n: nat)
    requires Linked(heap) && Within(working, |heap|) && (s.Some? ==> s.value < |heap|)
  {
    forall m | 0 <= m < n :: Continues(heap, working, deleted, Ancestor(heap, working, deleted, s, m))
  }

  lemma GoesOnShift(heap: seq<Event>, working: map<Key, Ref>, deleted: seq<Key>, s: Option<Ref>, n: nat)
    requires Linked(heap) && Within(working, |heap|) && (s.Some? ==> s.value < |heap|)
    requires Continues(heap, working, deleted, s)
    ensures GoesOn(heap, working, deleted, s, n + 1) <==>
            GoesOn(heap, working, deleted, Next(heap, working, deleted, s), n)
  {
    var t := Next(heap, working, deleted, s);
    forall m' | 0 <= m' ensures Ancestor(heap, working, deleted, s, m' + 1) == Ancestor(heap, working, deleted, t, m') {
    }
    if GoesOn(heap, working, deleted, t, n) {
      forall m' | 0 <= m' < n + 1 ensures Continues(heap, working, deleted, Ancestor(heap, working, deleted, s, m')) {
        if m' > 0 {
          assert Continues(heap, working, deleted, Ancestor(heap, working, deleted, t, m' - 1));
        }
      }
    }
    if GoesOn(heap, working, deleted, s, n + 1) {
      forall m' | 0 <= m' < n ensures Continues(heap, working, deleted, Ancestor(heap, working, deleted, t, m')) {
        assert Continues(heap, working, deleted, Ancestor(heap, working, deleted, s, m' + 1));
      }
    }
  }

  /** The walk runs out of fuel exactly when it goes on from each of its first `fuel` states and
      the state after them is still an ancestor. */
  lemma {:induction false} WalkCycleChain(heap: seq<Event>, working: map<Key, Ref>, deleted: seq<Key>,
                                          s: Option<Ref>, fuel: nat)
    requires Linked(heap) && Within(working, |heap|) && (s.Some? ==> s.value < |heap|)
    ensures Walk(heap, working, deleted, s, fuel) == Cycle <==>
            GoesOn(heap, working, deleted, s, fuel) && Ancestor(heap, working, deleted, s, fuel).Some?
    decreases fuel
  {
    if fuel > 0 {
      var t := Next(heap, working, deleted, s);
      if Continues(heap, working, deleted, s) {
        WalkCycleChain(heap, working, deleted, t, fuel - 1);
        GoesOnShift(heap, working, deleted, s, fuel - 1);
        assert Ancestor(heap, working, deleted, s, fuel) == Ancestor(heap, working, deleted, t, fuel - 1);
      } else {
        assert Ancestor(heap, working, deleted, s, 0) == s;
        assert !Continues(heap, working, deleted, Ancestor(heap, working, deleted, s, 0));
      }
    }
  }

  /** `bound + 1` or more numbers below `bound` repeat one. */
  lemma {:induction false} Pigeonhole(xs: seq<nat>, bound: nat)
    requires bound > 0
    requires forall i | 0 <= i < |xs| :: xs[i] < bound
    requires |xs| > bound
    ensures exists i, j :: 0 <= i < j < |xs| && xs[i] == xs[j]
    decreases bound
  {
    var last := |xs| - 1;
    var v := xs[last];
    if bound == 1 {
      assert xs[0] == xs[1];
    } else if v in xs[..last] {
      var i :| 0 <= i < last && xs[..last][i] == v;
      assert xs[i] == xs[last];
    } else {
      var ys := seq(last, i requires 0 <= i < last => if xs[i] > v then xs[i] - 1 else xs[i]);
      forall i | 0 <= i < last ensures ys[i] < bound - 1 {
        assert xs[i] != v by {
          assert xs[..last][i] == xs[i];
        }
      }
      Pigeonhole(ys, bound - 1);
      var i, j :| 0 <= i < j < |ys| && ys[i] == ys[j];
      assert xs[i] != v && xs[j] != v by {
        assert xs[..last][i] == xs[i] && xs[..last][j] == xs[j];
      }
      assert xs[i] == xs[j];
    }
  }

  lemma {:induction false} AncestorShift(heap: seq<Event>, working: map<Key, Ref>, deleted: seq<Key>,
                                         s: Option<Ref>, a: nat, b: nat)
    requires Linked(heap) && Within(working, |heap|) && (s.Some? ==> s.value < |heap|)
    ensures Ancestor(heap, working, deleted, s, a + b) ==
            Ancestor(heap, working, deleted, Ancestor(heap, working, deleted, s, a), b)
    decreases a
  {
    if a > 0 {
      AncestorShift(heap, working, deleted, Next(heap, working, deleted, s), a - 1, b);
    }
  }

  /** Once the walk comes back to a state it has been in, it goes on forever. */
  lemma {:induction false} RepeatGoesOn(heap: seq<Event>, working: map<Key, Ref>, deleted: seq<Key>,
                                        s: Option<Ref>, i: nat, j: nat, m: nat)
    requires Linked(heap) && Within(working, |heap|) && (s.Some? ==> s.value < |heap|)
    requires i < j && Ancestor(heap, working, deleted, s, i) == Ancestor(heap, working, deleted, s, j)
    requires forall m' | 0 <= m' < j :: Continues(heap, working, deleted, Ancestor(heap, working, deleted, s, m'))
    ensures Continues(heap, working, deleted, Ancestor(heap, working, deleted, s, m))
    decreases m
  {
    if m >= j {
      AncestorShift(heap, working, deleted, s, j, m - j);
      AncestorShift(heap, working, deleted, s, i, m - j);
      RepeatGoesOn(heap, working, deleted, s, i, j, m - (j - i));
    }
  }

  /** A walk that runs out of the fuel `|heap|` never ends: PHP's while loop spins forever. */
  lemma CycleNeverEnds(heap: seq<Event>, working: map<Key, Ref>, deleted: seq<Key>, s: Option<Ref>)
    requires Linked(heap) && Within(working, |heap|) && (s.Some? ==> s.value < |heap|)
    requires Walk(heap, working, deleted, s, |heap|) == Cycle
    ensures forall fuel: nat :: Walk(heap, working, deleted, s, fuel) == Cycle
  {
    var F := |heap|;
    WalkCycleChain(heap, working, deleted, s, F);
    var xs := seq(F + 1, m requires 0 <= m && Linked(heap) && Within(working, |heap|) &&
                                    (s.Some? ==> s.value < |heap|) =>
                    match Ancestor(heap, working, deleted, s, m) case Some(r) => r case None => 0);
    forall m | 0 <= m <= F
      ensures Ancestor(heap, working, deleted, s, m).Some? && xs[m] < F
      ensures Ancestor(heap, working, deleted, s, m) == Some(xs[m])
    {
      if m < F {
        assert Continues(heap, working, deleted, Ancestor(heap, working, deleted, s, m));
      }
    }
    Pigeonhole(xs, F);
    var i, j :| 0 <= i < j < |xs| && xs[i] == xs[j];
    forall m: nat ensures Continues(heap, working, deleted, Ancestor(heap, working, deleted, s, m)) {
      RepeatGoesOn(heap, working, deleted, s, i, j, m);
    }
    forall fuel: nat ensures Walk(heap, working, deleted, s, fuel) == Cycle {
      WalkCycleChain(heap, working, deleted, s, fuel);
    }
  }

  // ---------------------------------------------------------------------------------------
  // Order and parent

  /** One call of setOrderAndParent. The event is pruned exactly when the walk up its current
      parent chain meets a deleted id before the top; a pruned event leaves the campaign under
      every key and keeps its order and parent. Otherwise a root gets order 2 and no parent, a
      child order 1.01 and the parent's entity when the parent key is in the working array
      (else its parent is kept), and the event joins the campaign under its key. A missing key
      on the chain (PHP's fatal error) or a chain that never ends changes nothing. */
  lemma OrderAndParentEffect(g: Graph, working: map<Key, Ref>, deleted: seq<Key>,
                             eventId: Key, parentId: Key)
    requires Wf(g) && Within(working, |g.heap|) && eventId in working
    ensures var r := working[eventId];
            var start := g.heap[r].parent;
            var (g', end) := OrderAndParent(g, working, deleted, eventId, parentId);
            && (end == DeletedAncestor <==>
                exists m | 0 <= m < |g.heap| :: ReachesDeleted(g.heap, working, deleted, start, m))
            && (end == DeletedAncestor ==>
                  g'.heap == g.heap &&
                  (forall k :: k in g'.members <==> k in g.members && g.members[k] != r) &&
                  (forall k | k in g'.members :: g'.members[k] == g.members[k]))
            && (end == Top ==>
                  && g'.heap[r].order == (if parentId == RootKey then 200 else 101)
                  && g'.heap[r].parent == (if parentId == RootKey then None
                                           else if parentId in working then Some(working[parentId])
                                           else g.heap[r].parent)
                  && g'.heap[r].id == g.heap[r].id
                  && g'.heap[r].properties == g.heap[r].properties
                  && (forall q | 0 <= q < |g.heap| && q != r :: g'.heap[q] == g.heap[q])
                  && g'.members == g.members[eventId := r])
            && (end.MissingKey? || end == Cycle ==> g' == g)
  {
    var r := working[eventId];
    WalkMeetsDeleted(g.heap, working, deleted, g.heap[r].parent, |g.heap|);
  }

  /** With a reorder map, the calls are the map's entries whose child key is in the working
      array, each with the parent key the map gives, in the map's order. */
  lemma {:induction false} OrderedCallsExact(sessionOrder: seq<(Key, Key)>, working: map<Key, Ref>)
    ensures var calls := OrderedCalls(sessionOrder, working);
            && |calls| <= |sessionOrder|
            && (forall c :: c in calls <==>
                  exists i | 0 <= i < |sessionOrder| ::
                    sessionOrder[i].0 in working && c == Call(sessionOrder[i].0, Some(sessionOrder[i].1)))
    decreases |sessionOrder|
  {
    if sessionOrder != [] {
      var n := |sessionOrder| - 1;
      var p := sessionOrder[..n];
      var last := if sessionOrder[n].0 in working then [Call(sessionOrder[n].0, Some(sessionOrder[n].1))] else [];
      assert OrderedCalls(sessionOrder, working) == OrderedCalls(p, working) + last;
      OrderedCallsExact(p, working);
      forall c | c in OrderedCalls(sessionOrder, working)
        ensures exists i | 0 <= i < |sessionOrder| ::
                  sessionOrder[i].0 in working && c == Call(sessionOrder[i].0, Some(sessionOrder[i].1))
      {
        if c in OrderedCalls(p, working) {
          var i :| 0 <= i < |p| && p[i].0 in working && c == Call(p[i].0, Some(p[i].1));
          assert sessionOrder[i] == p[i];
        } else {
          assert c in last;
          assert sessionOrder[n].0 in working && c == Call(sessionOrder[n].0, Some(sessionOrder[n].1));
        }
      }
      forall c, i | 0 <= i < |sessionOrder| &&
                    sessionOrder[i].0 in working && c == Call(sessionOrder[i].0, Some(sessionOrder[i].1))
        ensures c in OrderedCalls(sessionOrder, working)
      {
        if i < n {
          assert p[i] == sessionOrder[i];
          assert c in OrderedCalls(p, working);
        } else {
          assert c in last;
        }
      }
    }
  }

  /** Filtering the reorder map distributes over concatenation. */
  lemma {:induction false} OrderedCallsAppend(a: seq<(Key, Key)>, b: seq<(Key, Key)>, working: map<Key, Ref>)
    ensures OrderedCalls(a + b, working) == OrderedCalls(a, working) + OrderedCalls(b, working)
    decreases |b|
  {
    if b != [] {
      var n := |b| - 1;
      OrderedCallsAppend(a, b[..n], working);
      var ab := a + b;
      assert ab[..|ab| - 1] == a + b[..n];
      assert ab[|ab| - 1] == b[n];
      var tail := if b[n].0 in working then [Call(b[n].0, Some(b[n].1))] else [];
      assert OrderedCalls(ab, working) == OrderedCalls(a + b[..n], working) + tail;
      assert OrderedCalls(b, working) == OrderedCalls(b[..n], working) + tail;
    } else {
      assert a + b == a;
    }
  }

  lemma OrderedCallsStep(sessionOrder: seq<(Key, Key)>, i: nat, working: map<Key, Ref>)
    requires i < |sessionOrder|
    ensures OrderedCalls(sessionOrder[..i + 1], working) ==
            OrderedCalls(sessionOrder[..i], working) +
            (if sessionOrder[i].0 in working then [Call(sessionOrder[i].0, Some(sessionOrder[i].1))] else [])
  {
    assert sessionOrder[..i + 1][..i] == sessionOrder[..i];
  }

  /** The reorder branch is decided once every entry is done or one call has not completed. */
  lemma OrderedCallsRest(g: Graph, working: map<Key, Ref>, deleted: seq<Key>,
                         sessionOrder: seq<(Key, Key)>, i: nat)
    requires Wf(g) && Within(working, |g.heap|)
    requires i <= |sessionOrder|
    requires i == |sessionOrder| || RunCalls(g, working, deleted, OrderedCalls(sessionOrder[..i], working)).1 != Completed
    ensures RunCalls(g, working, deleted, OrderedCalls(sessionOrder, working)) ==
            RunCalls(g, working, deleted, OrderedCalls(sessionOrder[..i], working))
  {
    OrderedCallsAppend(sessionOrder[..i], sessionOrder[i..], working);
    assert sessionOrder[..i] + sessionOrder[i..] == sessionOrder;
    if i < |sessionOrder| {
      RunCallsStops(g, working, deleted, OrderedCalls(sessionOrder[..i], working),
                    OrderedCalls(sessionOrder[i..], working));
    } else {
      assert sessionOrder[..i] == sessionOrder;
    }
  }

  /** One more call runs only after calls that all completed. */
  lemma RunCallsSnoc(g: Graph, working: map<Key, Ref>, deleted: seq<Key>, calls: seq<Call>, c: Call)
    requires Wf(g) && Within(working, |g.heap|)
    requires forall i | 0 <= i < |calls| :: calls[i].child in working
    requires c.child in working
    ensures var before := RunCalls(g, working, deleted, calls);
            RunCalls(g, working, deleted, calls + [c]) ==
            if before.1 != Completed then before
            else
              var parentId := if c.parent.Some? then c.parent.value
                              else ParentKey(before.0.heap, working[c.child]);
              var step := OrderAndParent(before.0, working, deleted, c.child, parentId);
              (step.0, OutcomeOf(step.1))
  {
    assert (calls + [c])[..|calls|] == calls;
  }

  /** One more call of the plain branch, after calls that all completed. */
  lemma RunCallsPlainStep(g: Graph, working: map<Key, Ref>, deleted: seq<Key>, calls: seq<Call>, id: Key)
    requires Wf(g) && Within(working, |g.heap|)
    requires forall i | 0 <= i < |calls| :: calls[i].child in working
    requires id in working
    requires RunCalls(g, working, deleted, calls).1 == Completed
    ensures var before := RunCalls(g, working, deleted, calls).0;
            var step := OrderAndParent(before, working, deleted, id, ParentKey(before.heap, working[id]));
            RunCalls(g, working, deleted, calls + [Call(id, None)]) == (step.0, OutcomeOf(step.1))
  {
    RunCallsSnoc(g, working, deleted, calls, Call(id, None));
  }

  /** Once a call ends in PHP's fatal error or in the endless walk, no later call runs. */
  lemma {:induction false} RunCallsStops(g: Graph, working: map<Key, Ref>, deleted: seq<Key>,
                                         calls: seq<Call>, more: seq<Call>)
    requires Wf(g) && Within(working, |g.heap|)
    requires forall i | 0 <= i < |calls| :: calls[i].child in working
    requires forall i | 0 <= i < |more| :: more[i].child in working
    requires RunCalls(g, working, deleted, calls).1 != Completed
    ensures RunCalls(g, working, deleted, calls + more) == RunCalls(g, working, deleted, calls)
    decreases |more|
  {
    if more != [] {
      var n := |more| - 1;
      RunCallsStops(g, working, deleted, calls, more[..n]);
      var all := calls + more;
      assert all[..|all| - 1] == calls + more[..n];
      assert RunCalls(g, working, deleted, all[..|all| - 1]).1 != Completed;
    } else {
      assert calls + more == calls;
    }
  }

  /** A run that stopped after the first `i` calls, or made them all, ends as the whole
      sequence of calls does. */
  lemma RunCallsPrefixFinal(g: Graph, working: map<Key, Ref>, deleted: seq<Key>, calls: seq<Call>, i: nat)
    requires Wf(g) && Within(working, |g.heap|)
    requires forall j | 0 <= j < |calls| :: calls[j].child in working
    requires i <= |calls|
    requires i == |calls| || RunCalls(g, working, deleted, calls[..i]).1 != Completed
    ensures RunCalls(g, working, deleted, calls[..i]) == RunCalls(g, working, deleted, calls)
  {
    assert calls[..i] + calls[i..] == calls;
    if i == |calls| {
      assert calls[..i] == calls;
    } else {
      RunCallsStops(g, working, deleted, calls[..i], calls[i..]);
    }
  }

  /** Without a reorder map, every key of the working array is the child of exactly one call,
      in the working array's order, and each call reads its parent key from the entity. */
  lemma NoReorderSchedule(w: Working)
    requires Ordered(w)
    ensures var calls := Schedule([], w);
            && (forall k :: k in w.events <==> exists i | 0 <= i < |calls| :: calls[i].child == k)
            && (forall i, j | 0 <= i < j < |calls| :: calls[i].child != calls[j].child)
            && (forall i | 0 <= i < |calls| :: calls[i] == Call(w.keys[i], None))
  {
    var calls := Schedule([], w);
    forall k | k in w.events ensures exists i | 0 <= i < |calls| :: calls[i].child == k {
      var i :| 0 <= i < |w.keys| && w.keys[i] == k;
      assert calls[i].child == k;
    }
  }

  // ---------------------------------------------------------------------------------------
  // The whole rebuild

  /** Every entity of `events` is one of `existing` or was created at or after `n`. */
  ghost predicate FromOrFresh(events: map<Key, Ref>, existing: map<Key, Ref>, n: nat)
  {
    forall k | k in events :: events[k] in existing.Values || n <= events[k]
  }

  lemma {:induction false} MaterializeRefs(w: Working, existing: map<Key, Ref>, setters: set<string>,
                                           session: seq<(Key, seq<(string, Value)>)>, n: nat)
    requires Within(existing, |w.heap|) && n <= |w.heap|
    requires FromOrFresh(w.events, existing, n)
    ensures FromOrFresh(Materialize(w, existing, setters, session).events, existing, n)
    decreases |session|
  {
    if session != [] {
      var k := |session| - 1;
      MaterializeRefs(w, existing, setters, session[..k], n);
      var before := Materialize(w, existing, setters, session[..k]);
      EntryKeys(before, existing, setters, session[k].0, session[k].1);
      var target := ReuseTarget(existing, session[k].1);
      if target.Some? {
        var named := Lookup(session[k].1, "id");
        assert existing[KeyOf(named.value).value] in existing.Values;
      }
      assert Materialize(w, existing, setters, session) ==
             MaterializeEntry(before, existing, setters, session[k].0, session[k].1);
    }
  }

  lemma OrderAndParentRefs(g: Graph, working: map<Key, Ref>, deleted: seq<Key>, eventId: Key, parentId: Key)
    requires Wf(g) && Within(working, |g.heap|) && eventId in working
    ensures OrderAndParent(g, working, deleted, eventId, parentId).0.members.Values <=
            g.members.Values + {working[eventId]}
  {
    var g' := OrderAndParent(g, working, deleted, eventId, parentId).0;
    forall v | v in g'.members.Values ensures v in g.members.Values + {working[eventId]} {
      var k :| k in g'.members && g'.members[k] == v;
      if k in g.members && g.members[k] == v {
        assert v in g.members.Values;
      }
    }
  }

  /** The calls only put back entities of the working array: every entity in the campaign
      afterwards was in it before or is in the working array. */
  lemma {:induction false} RunCallsRefs(g: Graph, working: map<Key, Ref>, deleted: seq<Key>, calls: seq<Call>)
    requires Wf(g) && Within(working, |g.heap|)
    requires forall i | 0 <= i < |calls| :: calls[i].child in working
    ensures RunCalls(g, working, deleted, calls).0.members.Values <= g.members.Values + working.Values
    decreases |calls|
  {
    if calls != [] {
      var n := |calls| - 1;
      RunCallsRefs(g, working, deleted, calls[..n]);
      var before := RunCalls(g, working, deleted, calls[..n]);
      if before.1 == Completed {
        var c := calls[n];
        var parentId := if c.parent.Some? then c.parent.value
                        else ParentKey(before.0.heap, working[c.child]);
        OrderAndParentRefs(before.0, working, deleted, c.child, parentId);
        assert working[c.child] in working.Values;
      }
    }
  }

  /** The entities left after the deletion loop are none of those the deleted ids named. */
  lemma ExistingAvoidsDeleted(members: map<Key, Ref>, deleted: seq<Key>)
    ensures forall v, j | v in AfterDeletions(members, deleted).Values && 0 <= j < |deleted| &&
                          deleted[j] in members :: v != members[deleted[j]]
  {
    var existing := AfterDeletions(members, deleted);
    AfterDeletionsExact(members, deleted);
    forall v, j | v in existing.Values && 0 <= j < |deleted| && deleted[j] in members
      ensures v != members[deleted[j]]
    {
      var k :| k in existing && existing[k] == v;
      assert Survives(members, deleted, k);
    }
  }

  /** An entity removed for a deleted id never comes back: after setEvents no key of the
      campaign holds the entity that a deleted id named. */
  lemma RebuildNeverRestores(g: Graph, session: seq<(Key, seq<(string, Value)>)>,
                             sessionOrder: seq<(Key, Key)>, deleted: seq<Key>, setters: set<string>)
    requires Wf(g)
    ensures var g' := Rebuild(g, session, sessionOrder, deleted, setters).0;
            forall k, j | k in g'.members && 0 <= j < |deleted| && deleted[j] in g.members ::
              g'.members[k] != g.members[deleted[j]]
  {
    var existing := AfterDeletions(g.members, deleted);
    ExistingAvoidsDeleted(g.members, deleted);
    var w0 := Working(g.heap, map[], []);
    MaterializeRefs(w0, existing, setters, session, |g.heap|);
    var w := Materialize(w0, existing, setters, session);
    var calls := Schedule(sessionOrder, w);
    RunCallsRefs(Graph(w.heap, existing), w.events, deleted, calls);
    var g' := RunCalls(Graph(w.heap, existing), w.events, deleted, calls).0;
    assert g' == Rebuild(g, session, sessionOrder, deleted, setters).0;
    forall k, j | k in g'.members && 0 <= j < |deleted| && deleted[j] in g.members
      ensures g'.members[k] != g.members[deleted[j]]
    {
      var v := g'.members[k];
      assert v in g'.members.Values;
      assert v in existing.Values || v in w.events.Values;
      if v !in existing.Values {
        var k' :| k' in w.events && w.events[k'] == v;
        assert |g.heap| <= v;
        assert g.members[deleted[j]] < |g.heap|;
      }
    }
  }
}
