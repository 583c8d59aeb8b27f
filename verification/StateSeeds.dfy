/** The slots a tree seeds for itself, over every sequence of events. */
module StateSeeds {
  import opened Trees
  import opened ConfirmTokens
  import opened BoundedFold
  import opened BoundedLoop
  import opened ConfirmProtocol

  /** Two stores read alike at every node's slots. */
  ghost predicate ReadsAlike(h: Host, a: Store, b: Store, n: PNode)
    decreases n
  {
    h.resolveContent(a, n.content) == h.resolveContent(b, n.content) && AllReadAlike(h, a, b, n.children)
  }

  ghost predicate AllReadAlike(h: Host, a: Store, b: Store, ns: seq<PNode>)
    decreases ns
  {
    ns == [] || (ReadsAlike(h, a, b, ns[0]) && AllReadAlike(h, a, b, ns[1..]))
  }

  lemma {:induction false} TreesAlike(h: Host, a: Store, b: Store, n: PNode)
    ensures ResolveTree(h, a, n) == ResolveTree(h, b, n) <==> ReadsAlike(h, a, b, n)
    decreases n
  {
    AllAlike(h, a, b, n.children);
  }

  lemma {:induction false} AllAlike(h: Host, a: Store, b: Store, ns: seq<PNode>)
    ensures ResolveAll(h, a, ns) == ResolveAll(h, b, ns) <==> AllReadAlike(h, a, b, ns)
    decreases ns
  {
    if ns != [] {
      TreesAlike(h, a, b, ns[0]);
      AllAlike(h, a, b, ns[1..]);
      var x, y := ResolveAll(h, a, ns), ResolveAll(h, b, ns);
      assert x[0] == ResolveTree(h, a, ns[0]) && y[0] == ResolveTree(h, b, ns[0]);
      assert x[1..] == ResolveAll(h, a, ns[1..]) && y[1..] == ResolveAll(h, b, ns[1..]);
    }
  }

  /** The event is admitted and its node's handler acts on it. */
  ghost predicate Acted(su: Setup, st: LoopState, e: Event)
  {
    Validate(su.host, st.resolved, e).Acts? && Handle(su, st, e).1.rejected.None?
  }

  /** Some event of the run acted. */
  ghost predicate ActedDuring(su: Setup, st: LoopState, events: seq<Event>)
    decreases |events|
  {
    events != []
    && var front := events[..|events| - 1];
       ActedDuring(su, st, front) || Acted(su, After(su, st, front), events[|events| - 1])
  }

  lemma StepShows(su: Setup, st: LoopState, e: Event)
    ensures var after := Handle(su, st, e).0;
      if Acted(su, st, e)
      then after.resolved == ResolveTree(su.host, after.store, su.base)
           && su.host.treeCost(su.maxNodes, su.base) <= su.maxNodes
      else after.store == st.store && after.resolved == st.resolved
  {
  }

  /** The tree a run shows: seeded until the first event that acts, and read from the store alone after it. */
  lemma {:induction false} ShownTree(su: Setup, store: Store, events: seq<Event>)
    ensures var first := LoopState(store, FirstResolved(su, store), []);
      var st := After(su, first, events);
      if ActedDuring(su, first, events)
      then st.resolved == ResolveTree(su.host, st.store, su.base)
           && su.host.treeCost(su.maxNodes, su.base) <= su.maxNodes
      else st.store == store && st.resolved == FirstResolved(su, store)
    decreases |events|
  {
    if events != [] {
      var n := |events| - 1;
      ShownTree(su, store, events[..n]);
      StepShows(su, After(su, LoopState(store, FirstResolved(su, store), []), events[..n]), events[n]);
    }
  }

  /** A run shows the store with the tree's seeds laid under it if and only if no event of it acted, or the
      seeds change what no node reads. */
  lemma SeedsShownExactly(su: Setup, store: Store, events: seq<Event>)
    ensures var first := LoopState(store, FirstResolved(su, store), []);
      var st := After(su, first, events);
      st.resolved == FirstResolved(su, st.store) <==>
      (!ActedDuring(su, first, events) || ReadsAlike(su.host, st.store, Seeded(su.host, su.base, st.store), su.base))
  {
    var st := After(su, LoopState(store, FirstResolved(su, store), []), events);
    ShownTree(su, store, events);
    TreesAlike(su.host, st.store, Seeded(su.host, su.base, st.store), su.base);
  }

  lemma AlikeSelf(h: Host, store: Store, n: PNode)
    ensures ReadsAlike(h, store, store, n)
  {
    TreesAlike(h, store, store, n);
  }

  /** Where the store holds every seeded slot, the seeds change nothing. */
  lemma HeldSeedsShown(su: Setup, store: Store, events: seq<Event>)
    requires su.host.seeds(su.base).Keys <= After(su, LoopState(store, FirstResolved(su, store), []), events).store.Keys
    ensures var st := After(su, LoopState(store, FirstResolved(su, store), []), events);
      st.resolved == FirstResolved(su, st.store)
  {
    var st := After(su, LoopState(store, FirstResolved(su, store), []), events);
    assert Seeded(su.host, su.base, st.store) == st.store;
    AlikeSelf(su.host, st.store, su.base);
    SeedsShownExactly(su, store, events);
  }

  // ----- a seed that is lost -----

  /** A host that shows a slot's presence. */
  function SlotHost(): Host
  {
    Host((_, _) => None, (_, _) => None, _ => false, _ => None, (_, _, _) => Declines, (_, _) => false, _ => true,
         _ => None, (store, slot) => if slot in store then "shown" else "absent",
         (n: PNode) => map[n.content := JNull], (_, _) => 0)
  }

  /** Pressing a node whose action writes nothing empties the slot the tree seeded. */
  lemma SeedLostByEvent()
    ensures var base := PNode("row", Some(("press", Action.Other("noop"))), [], "slot", [], []);
      var su := Setup(SlotHost(), base, 1, 1);
      var first := LoopState(map[], FirstResolved(su, map[]), []);
      var after := Handle(su, first, Event("row", "press", map[])).0;
      first.resolved.content == "shown" && after.resolved.content == "absent" && after.store == first.store
  {
  }
}
