/** Worked rebuilds of a two-event campaign: E1 (id 1) is a root with order 2 and E2 (id 2) its
    child with order 1.01. Each lemma computes the whole of setEvents on a concrete diff. */
module EventTreeScenarios {
  import opened PhpValues
  import opened EventTree

  /** The properties an entry with `type => send_email` sets when `setType` exists. */
  const Sent: map<string, Value> := map["type" := Str("send_email")]
  const Before := Graph([Event(Some("1"), map[], 200, None, true), Event(Some("2"), map[], 101, Some(0), true)],
                        map["1" := 0, "2" := 1])
  const EntryE1: seq<(string, Value)> := [("id", Str("1")), ("type", Str("send_email"))]
  const EntryNew: seq<(string, Value)> := [("type", Str("send_email"))]
  const Diff := [("1", EntryE1), ("new2", EntryNew)]
  const E1Set := Event(Some("1"), Sent, 200, None, true)
  const NewSet := Event(None, Sent, 0, None, true)
  /** The working array after the first entry, and after both. */
  const W1 := Working([E1Set, Before.heap[1]], map["1" := 0], ["1"])
  const W2 := Working([E1Set, Before.heap[1], NewSet], map["1" := 0, "new2" := 2], ["1", "new2"])

  lemma FirstEntry()
    ensures MaterializeEntry(Working(Before.heap, map[], []), Before.members, {"type"}, "1", EntryE1) == W1
  {
    assert Lookup(EntryE1, "id") == Some(Str("1"));
    assert ReuseTarget(Before.members, EntryE1) == Some(0);
    assert HasUnreserved(EntryE1) by { assert EntryE1[1].0 !in Reserved; }
    assert EntryE1[..1] == [("id", Str("1"))];
    assert EntryE1[..1][..0] == [];
    var e := Before.heap[0];
    assert ApplyProperties(e, EntryE1[..1], {"type"}) == e;
    assert ApplyProperties(e, EntryE1, {"type"}) == E1Set;
  }

  lemma SecondEntry()
    ensures MaterializeEntry(W1, Before.members, {"type"}, "new2", EntryNew) == W2
  {
    assert Lookup(EntryNew, "id") == None;
    assert ReuseTarget(Before.members, EntryNew) == None;
    assert HasUnreserved(EntryNew) by { assert EntryNew[0].0 !in Reserved; }
    assert EntryNew[..0] == [];
  }

  /** The diff keeps E1 (its entry names id 1) and creates one new Event for the entry `new2`,
      which has no id; E2 is not in the diff, so it is not in the working array. */
  lemma DiffMaterialized()
    ensures Materialize(Working(Before.heap, map[], []), Before.members, {"type"}, Diff) == W2
  {
    var w0 := Working(Before.heap, map[], []);
    assert Diff[..1] == [("1", EntryE1)];
    assert Diff[..1][..0] == [];
    FirstEntry();
    SecondEntry();
    assert Materialize(w0, Before.members, {"type"}, Diff[..1]) == W1;
  }

  const Order := [("1", RootKey), ("new2", "1")]
  const NewPlaced := Event(None, Sent, 101, Some(0), true)

  lemma OrderCalls()
    ensures Schedule(Order, W2) == [Call("1", Some(RootKey)), Call("new2", Some("1"))]
  {
    assert Order[..1] == [("1", RootKey)];
    assert Order[..1][..0] == [];
    assert "1" in W2.events && "new2" in W2.events;
    assert OrderedCalls(Order[..1][..0], W2.events) == [];
    assert OrderedCalls(Order[..1], W2.events) == [Call("1", Some(RootKey))];
  }

  lemma OrderRun()
    ensures RunCalls(Graph(W2.heap, Before.members), W2.events, [],
                     [Call("1", Some(RootKey)), Call("new2", Some("1"))]) ==
            (Graph([E1Set, Before.heap[1], NewPlaced], map["1" := 0, "2" := 1, "new2" := 2]), Completed)
  {
    var g0 := Graph(W2.heap, Before.members);
    var calls := [Call("1", Some(RootKey)), Call("new2", Some("1"))];
    assert Walk(W2.heap, W2.events, [], None, 3) == Top;
    assert PlacedOrder("1", RootKey) == 200;
    assert Place(E1Set, "1", RootKey, W2.events) == E1Set;
    assert W2.heap[0 := E1Set] == W2.heap;
    assert Before.members["1" := 0] == Before.members;
    assert OrderAndParent(g0, W2.events, [], "1", RootKey) == (g0, Top);
    assert calls[..1] == [Call("1", Some(RootKey))];
    assert calls[..1][..0] == [];
    assert RunCalls(g0, W2.events, [], calls[..1]) == (g0, Completed);
    assert PlacedOrder("new2", "1") == 101;
    assert Place(NewSet, "new2", "1", W2.events) == NewPlaced;
    assert W2.heap[2 := NewPlaced] == [E1Set, Before.heap[1], NewPlaced];
    assert OrderAndParent(g0, W2.events, [], "new2", "1") ==
           (Graph([E1Set, Before.heap[1], NewPlaced], map["1" := 0, "2" := 1, "new2" := 2]), Top);
  }

  /** With the reorder map `1 => null, new2 => 1`, E1 stays a root with order 2, the new Event
      becomes E1's child with order 1.01 (the closure's counter starts afresh on every call, so
      not 2.01), and it joins the campaign under `new2`; E2 stays in the campaign untouched. */
  lemma ScenarioReorder()
    ensures Rebuild(Before, Diff, Order, [], {"type"}) ==
            (Graph([E1Set, Before.heap[1], NewPlaced], map["1" := 0, "2" := 1, "new2" := 2]), Completed)
  {
    assert AfterDeletions(Before.members, []) == Before.members;
    DiffMaterialized();
    OrderCalls();
    OrderRun();
  }

  const EntryE2: seq<(string, Value)> := [("id", Str("2")), ("type", Str("send_email"))]
  const E2Set := Event(Some("2"), Sent, 101, Some(0), true)
  const WChild := Working([Before.heap[0], E2Set], map["2" := 1], ["2"])

  lemma ChildMaterialized(existing: map<Key, Ref>)
    requires "2" in existing && existing["2"] == 1 && Within(existing, 2)
    ensures Materialize(Working(Before.heap, map[], []), existing, {"type"}, [("2", EntryE2)]) == WChild
  {
    assert Lookup(EntryE2, "id") == Some(Str("2"));
    assert ReuseTarget(existing, EntryE2) == Some(1);
    assert HasUnreserved(EntryE2) by { assert EntryE2[1].0 !in Reserved; }
    assert EntryE2[..1] == [("id", Str("2"))];
    assert EntryE2[..1][..0] == [];
    var e := Before.heap[1];
    assert ApplyProperties(e, EntryE2[..1], {"type"}) == e;
    assert ApplyProperties(e, EntryE2, {"type"}) == E2Set;
    assert [("2", EntryE2)][..0] == [];
  }

  lemma ChildCalls()
    ensures Schedule([], WChild) == [Call("2", None)]
  {
  }

  /** Deleting E1 while the diff still holds E2: E2's walk meets the deleted id 1, so E2 is
      removed from the campaign too and keeps its order and parent. */
  lemma ScenarioOrphan()
    ensures Rebuild(Before, [("2", EntryE2)], [], ["1"], {"type"}) == (Graph(WChild.heap, map[]), Completed)
  {
    var existing := AfterDeletions(Before.members, ["1"]);
    assert ["1"][..0] == [];
    assert existing == map["2" := 1];
    ChildMaterialized(existing);
    ChildCalls();
    var g0 := Graph(WChild.heap, existing);
    assert ParentKey(WChild.heap, 1) == "1";
    assert Walk(WChild.heap, WChild.events, ["1"], Some(0), 2) == DeletedAncestor;
    assert WithoutRef(existing, 1) == map[];
    assert OrderAndParent(g0, WChild.events, ["1"], "2", "1") == (Graph(WChild.heap, map[]), DeletedAncestor);
    assert [Call("2", None)][..0] == [];
  }

  /** A diff that holds E2 but not its parent E1, with nothing deleted: the walk looks up the
      key 1 in the working array, finds nothing, and PHP stops with a fatal error before E2 is
      placed; the campaign is as the deletions and the session loop left it. */
  lemma ScenarioMissingParent()
    ensures Rebuild(Before, [("2", EntryE2)], [], [], {"type"}) == (Graph(WChild.heap, Before.members), Crashed("1"))
  {
    assert AfterDeletions(Before.members, []) == Before.members;
    ChildMaterialized(Before.members);
    ChildCalls();
    var g0 := Graph(WChild.heap, Before.members);
    assert ParentKey(WChild.heap, 1) == "1";
    assert Walk(WChild.heap, WChild.events, [], Some(0), 2) == MissingKey("1");
    assert OrderAndParent(g0, WChild.events, [], "2", "1") == (g0, MissingKey("1"));
    assert [Call("2", None)][..0] == [];
  }
}
