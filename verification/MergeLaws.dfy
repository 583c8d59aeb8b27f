/** Identity laws of the merge, what it makes of each facet, and that no cell conflicts twice. */
module MergeLaws {
  import opened Trees
  import opened TreeOps
  import opened TreeFacts
  import opened Merge
  import opened MergeSymmetry
  import opened MergeClean
  import Ordinal

  // ----- lookups among distinct siblings -----

  lemma {:induction false} LookupHere(ns: seq<Node>, i: nat)
    requires NoRepeats(IdSeq(ns)) && i < |ns|
    ensures Lookup(ns, ns[i].id) == Some(ns[i])
  {
    var k := |ns| - 1;
    LookupLast(ns, ns[i].id);
    if i < k {
      assert IdSeq(ns)[i] != IdSeq(ns)[k];
      FrontDistinct(ns);
      LookupHere(ns[..k], i);
    }
  }

  lemma LookupLast(ns: seq<Node>, id: Id)
    requires ns != []
    ensures Lookup(ns, id) == if id == ns[|ns| - 1].id then Some(ns[|ns| - 1]) else Lookup(ns[..|ns| - 1], id)
  {
    var front, last := ns[..|ns| - 1], ns[|ns| - 1];
    assert ChildMap(ns) == ChildMap(front)[last.id := last];
  }

  lemma FrontDistinct(ns: seq<Node>)
    requires NoRepeats(IdSeq(ns)) && ns != []
    ensures NoRepeats(IdSeq(ns[..|ns| - 1]))
  {
    var front := ns[..|ns| - 1];
    forall x, y | 0 <= x < y < |front| ensures IdSeq(front)[x] != IdSeq(front)[y] {
      assert IdSeq(ns)[x] != IdSeq(ns)[y];
    }
  }

  // ----- one branch unmoved, or both moved alike -----

  /** The moved branch as the merge leaves it: the traits it does not model are cleared at every node
      matched with one of the base. */
  function Settled(base: Node, a: Node): Node
    decreases Count(a), 1, 0
  {
    a.(kind := WithChildren(a.kind, SettledFirst(base, a, |Children(a)|)), tooltip := None, visible := None,
        fallback := None)
  }

  function SettledFirst(base: Node, a: Node, n: nat): (r: seq<Node>)
    requires n <= |Children(a)|
    ensures |r| == n
    decreases Count(a), 0, n
  {
    if n == 0 then []
    else
      var c := Children(a)[n - 1];
      CountAllAt(a.kind.children, n - 1);
      SettledFirst(base, a, n - 1)
      + [if Lookup(Children(base), c.id).Some? then Settled(Lookup(Children(base), c.id).value, c) else c]
  }

  lemma OneSidedFacets(enc: Encoder, base: Node, a: Node, b: Node)
    requires Injective(enc) && a.id == base.id && (b == base || b == a)
    ensures KindFacet(enc, base, a, b) == Outcome(Childless(a.kind), [])
    ensures StateFacet(enc, base, a, b) == Outcome(a.state, [])
    ensures AccessibilityFacet(enc, base, a, b) == Outcome(a.accessibility, [])
    ensures MergeStyle(base.id, base.style, a.style, b.style) == Outcome(a.style, [])
    ensures MergedIds(base, a, b) == Outcome(ChildIds(a), [])
  {
    var shell := Childless(base.kind);
    if enc(KindProbe(a)) == enc(KindProbe(base)) { assert KindProbe(a) == KindProbe(base); }
    if enc(StateProbe(shell, a)) == enc(StateProbe(shell, base)) {
      assert StateProbe(shell, a) == StateProbe(shell, base);
    }
    if enc(AccessibilityProbe(shell, a)) == enc(AccessibilityProbe(shell, base)) {
      assert AccessibilityProbe(shell, a) == AccessibilityProbe(shell, base);
    }
  }

  /** With one branch the base itself, or both branches one tree, the merge is the moved branch. */
  lemma {:induction false} OneSided(enc: Encoder, base: Node, a: Node, b: Node)
    requires Injective(enc) && DistinctSiblings(a) && a.id == base.id && (b == base || b == a)
    ensures Merge3(enc, base, a, b) == Outcome(Settled(base, a), [])
    decreases Count(a), 1, 0
  {
    var n := |Children(a)|;
    OneSidedFacets(enc, base, a, b);
    OneSidedListed(enc, base, a, b, n);
    assert |ChildIds(a)| == n && ChildIds(a)[..n] == ChildIds(a);
    assert WithChildren(Childless(a.kind), SettledFirst(base, a, n)) == WithChildren(a.kind, SettledFirst(base, a, n));
  }

  lemma {:induction false} OneSidedListed(enc: Encoder, base: Node, a: Node, b: Node, n: nat)
    requires Injective(enc) && DistinctSiblings(a) && (b == base || b == a) && n <= |Children(a)| == |ChildIds(a)|
    ensures MergeListed(enc, base, a, b, ChildIds(a)[..n]) == Outcome(SettledFirst(base, a, n), [])
    decreases Count(a), 0, n
  {
    if n > 0 {
      OneSidedListed(enc, base, a, b, n - 1);
      OneSidedChild(enc, base, a, b, n - 1);
      ListedStep(enc, base, a, b, ChildIds(a), n - 1);
      SettledStep(base, a, n);
      var front := MergeListed(enc, base, a, b, ChildIds(a)[..n - 1]);
      assert front.conflicts + [] == [];
    } else {
      assert ChildIds(a)[..n] == [];
    }
  }

  lemma SettledStep(base: Node, a: Node, n: nat)
    requires 0 < n <= |Children(a)|
    ensures var c := Children(a)[n - 1];
      var d := Lookup(Children(base), c.id);
      ChildIds(a)[n - 1] == c.id
      && SettledFirst(base, a, n) == SettledFirst(base, a, n - 1) + [if d.Some? then Settled(d.value, c) else c]
  {
  }

  lemma {:induction false} OneSidedChild(enc: Encoder, base: Node, a: Node, b: Node, i: nat)
    requires Injective(enc) && DistinctSiblings(a) && (b == base || b == a) && i < |Children(a)|
    ensures var c := Children(a)[i];
      var d := Lookup(Children(base), c.id);
      MergeChild(enc, base, a, b, c.id) == Some(Outcome(if d.Some? then Settled(d.value, c) else c, []))
    decreases Count(a), 0, 0
  {
    var c := Children(a)[i];
    LookupHere(Children(a), i);
    CountAllAt(a.kind.children, i);
    DistinctSiblingsChild(a, c.id);
    var d := Lookup(Children(base), c.id);
    if d.Some? {
      LookupChild(base, c.id);
      OneSided(enc, d.value, c, if b == a then c else d.value);
    }
  }

  /** The node, and every child matched with one of the base, carries none of the three unmodelled traits. */
  predicate PlainWhereMatched(base: Node, a: Node)
    decreases Count(a)
  {
    a.tooltip.None? && a.visible.None? && a.fallback.None?
    && forall i | 0 <= i < |Children(a)| ::
      CountAllAt(Children(a), i);
      Lookup(Children(base), Children(a)[i].id).Some? ==>
        PlainWhereMatched(Lookup(Children(base), Children(a)[i].id).value, Children(a)[i])
  }

  lemma {:induction false} SettledExact(base: Node, a: Node)
    ensures Settled(base, a) == a <==> PlainWhereMatched(base, a)
    decreases Count(a)
  {
    var n := |Children(a)|;
    var r := SettledFirst(base, a, n);
    forall i | 0 <= i < n
      ensures r[i] == Children(a)[i] <==>
        (Lookup(Children(base), Children(a)[i].id).Some? ==>
          PlainWhereMatched(Lookup(Children(base), Children(a)[i].id).value, Children(a)[i]))
    {
      CountAllAt(Children(a), i);
      SettledAt(base, a, n, i);
      if Lookup(Children(base), Children(a)[i].id).Some? {
        SettledExact(Lookup(Children(base), Children(a)[i].id).value, Children(a)[i]);
      }
    }
    assert r == Children(a) <==> forall i :: 0 <= i < n ==> r[i] == Children(a)[i];
  }

  lemma {:induction false} SettledAt(base: Node, a: Node, n: nat, i: nat)
    requires i < n <= |Children(a)|
    ensures SettledFirst(base, a, n)[i]
         == (var c := Children(a)[i];
             if Lookup(Children(base), c.id).Some? then Settled(Lookup(Children(base), c.id).value, c) else c)
  {
    if i < n - 1 { SettledAt(base, a, n - 1, i); }
  }

  /** A branch merged against the unmoved base is that branch, with no conflict, exactly where its
      matched nodes carry no trait the merge clears; likewise in the other order, and for two equal
      branches. */
  lemma MergeIdentity(enc: Encoder, base: Node, a: Node)
    requires Injective(enc) && DistinctSiblings(a) && a.id == base.id
    ensures Merge3Way(enc, base, a, base) == Merged(a) <==> PlainWhereMatched(base, a)
    ensures Merge3Way(enc, base, base, a) == Merged(a) <==> PlainWhereMatched(base, a)
    ensures Merge3Way(enc, base, a, a) == Merged(a) <==> PlainWhereMatched(base, a)
  {
    OneSided(enc, base, a, base);
    OneSided(enc, base, a, a);
    MergeTransposes(enc, base, a, base);
    SettledExact(base, a);
  }

  // ----- what the merge makes of each facet -----

  /** The 3-way pick: a side that moved wins, and two that moved apart clash and leave the base. */
  ghost predicate ThreeWay<T(!new)>(base: T, a: T, b: T, merged: T, clash: bool)
  {
    if a != base && b != base && a != b then merged == base && clash
    else merged == if a != base then a else b
  }

  ghost predicate FacetsPicked(base: Node, a: Node, b: Node, m: Node, cs: seq<Conflict>)
  {
    m.id == base.id
    && ThreeWay(Childless(base.kind), Childless(a.kind), Childless(b.kind), Childless(m.kind),
        Clash(cs, base.id, KindCell))
    && ThreeWay(base.style.tone, a.style.tone, b.style.tone, m.style.tone, Clash(cs, base.id, ToneCell))
    && ThreeWay(base.style.weight, a.style.weight, b.style.weight, m.style.weight, Clash(cs, base.id, WeightCell))
    && ThreeWay(base.style.emphasis, a.style.emphasis, b.style.emphasis, m.style.emphasis,
        Clash(cs, base.id, EmphasisCell))
    && ThreeWay(base.style.role, a.style.role, b.style.role, m.style.role, Clash(cs, base.id, RoleCell))
    && ThreeWay(base.style.voice, a.style.voice, b.style.voice, m.style.voice, Clash(cs, base.id, VoiceCell))
    && ThreeWay(base.style.direction, a.style.direction, b.style.direction, m.style.direction,
        Clash(cs, base.id, DirectionCell))
    && ThreeWay(base.state, a.state, b.state, m.state, Clash(cs, base.id, StateCell))
    && ThreeWay(base.accessibility, a.accessibility, b.accessibility, m.accessibility,
        Clash(cs, base.id, AccessibilityCell))
  }

  /** Both sides add children and neither removes, reorders or shares one. */
  predicate DisjointInserts(base: Node, a: Node, b: Node)
  {
    var baseIds, aIds, bIds := ChildIds(base), ChildIds(a), ChildIds(b);
    IsPureAddition(baseIds, aIds) && IsPureAddition(baseIds, bIds)
    && forall x :: x in aIds && x in bIds ==> x in baseIds
  }

  /** Both sides restructured the children, apart, and not by adding alone. */
  predicate ChildrenClash(base: Node, a: Node, b: Node)
  {
    var baseIds, aIds, bIds := ChildIds(base), ChildIds(a), ChildIds(b);
    aIds != baseIds && bIds != baseIds && aIds != bIds && !DisjointInserts(base, a, b)
  }

  /** Which child ids the merge lists: both sides' where both only add, the base's where they clash, and
      otherwise those of the side that restructured. */
  predicate Keeps(base: Node, a: Node, b: Node, id: Id)
  {
    var baseIds, aIds, bIds := ChildIds(base), ChildIds(a), ChildIds(b);
    if aIds == baseIds then id in bIds
    else if bIds == baseIds || aIds == bIds then id in aIds
    else if ChildrenClash(base, a, b) then id in baseIds
    else id in aIds || id in bIds
  }

  /** The children a merge should keep: the 3-way pick of the id lists, except that disjoint inserts
      are both taken, after the base's children in ordinal order. */
  ghost predicate ChildrenPicked(base: Node, a: Node, b: Node, ids: seq<Id>, cs: seq<Conflict>)
  {
    var baseIds, aIds, bIds := ChildIds(base), ChildIds(a), ChildIds(b);
    if aIds != baseIds && bIds != baseIds && aIds != bIds && DisjointInserts(base, a, b) then
      |baseIds| <= |ids| && ids[..|baseIds|] == baseIds && Ordinal.Sorted(ids[|baseIds|..])
      && NoRepeats(ids[|baseIds|..])
      && forall x :: x in ids[|baseIds|..] <==> (x in aIds || x in bIds) && x !in baseIds
    else ThreeWay(baseIds, aIds, bIds, ids, Clash(cs, base.id, ChildrenCell))
  }

  /** The facets at this node, and at every node below matched in all three trees. */
  ghost predicate DeepPicked(base: Node, a: Node, b: Node, m: Node, cs: seq<Conflict>)
    decreases Count(base)
  {
    FacetsPicked(base, a, b, m, cs)
    && (exists ids :: ChildrenPicked(base, a, b, ids, cs)
                      && ChildIds(m) == (if PickedKind(base, a, b).Layout? then ids else []))
    && (forall id :: id in ChildIds(m) <==> PickedKind(base, a, b).Layout? && Keeps(base, a, b, id))
    && (ChildrenClash(base, a, b) ==> Clash(cs, base.id, ChildrenCell))
    && forall id :: MatchedBelow(base, a, b, id) ==>
      Lookup(Children(m), id).Some?
      && (LookupChild(base, id);
          DeepPicked(Lookup(Children(base), id).value, Lookup(Children(a), id).value, Lookup(Children(b), id).value,
                     Lookup(Children(m), id).value, cs))
  }

  predicate MatchedBelow(base: Node, a: Node, b: Node, id: Id)
  {
    Lookup(Children(base), id).Some? && Lookup(Children(a), id).Some? && Lookup(Children(b), id).Some?
    && PickedKind(base, a, b).Layout?
  }

  lemma FieldPicked(id: Id, facet: Facet, base: string, a: string, b: string, cs: seq<Conflict>)
    requires forall c :: c in PickField(id, facet, base, a, b).conflicts ==> c in cs
    ensures ThreeWay(base, a, b, PickField(id, facet, base, a, b).value, Clash(cs, id, facet))
  {
    if a != base && b != base && a != b {
      var c := TwoSided(id, facet, ConcurrentEdit, base, a, b);
      assert c in PickField(id, facet, base, a, b).conflicts;
    }
  }

  lemma StylePicked(id: Id, base: Style, a: Style, b: Style, cs: seq<Conflict>)
    requires forall c :: c in MergeStyle(id, base, a, b).conflicts ==> c in cs
    ensures var s := MergeStyle(id, base, a, b).value;
      ThreeWay(base.tone, a.tone, b.tone, s.tone, Clash(cs, id, ToneCell))
      && ThreeWay(base.weight, a.weight, b.weight, s.weight, Clash(cs, id, WeightCell))
      && ThreeWay(base.emphasis, a.emphasis, b.emphasis, s.emphasis, Clash(cs, id, EmphasisCell))
      && ThreeWay(base.role, a.role, b.role, s.role, Clash(cs, id, RoleCell))
      && ThreeWay(base.voice, a.voice, b.voice, s.voice, Clash(cs, id, VoiceCell))
      && ThreeWay(base.direction, a.direction, b.direction, s.direction, Clash(cs, id, DirectionCell))
  {
    FieldPicked(id, ToneCell, base.tone, a.tone, b.tone, cs);
    FieldPicked(id, WeightCell, base.weight, a.weight, b.weight, cs);
    FieldPicked(id, EmphasisCell, base.emphasis, a.emphasis, b.emphasis, cs);
    FieldPicked(id, RoleCell, base.role, a.role, b.role, cs);
    FieldPicked(id, VoiceCell, base.voice, a.voice, b.voice, cs);
    FieldPicked(id, DirectionCell, base.direction, a.direction, b.direction, cs);
  }

  lemma CanonicalClash(id: Id, facet: Facet, base: string, a: string, b: string, cs: seq<Conflict>)
    requires forall c :: c in PickCanonical(id, facet, base, a, b).conflicts ==> c in cs
    ensures a != base && b != base && a != b ==> Clash(cs, id, facet)
  {
    if a != base && b != base && a != b {
      assert TwoSided(id, facet, ConcurrentEdit, base, a, b) in PickCanonical(id, facet, base, a, b).conflicts;
    }
  }

  lemma KindPicked(enc: Encoder, base: Node, a: Node, b: Node, cs: seq<Conflict>)
    requires Injective(enc) && a.id == base.id == b.id
    requires forall c :: c in KindFacet(enc, base, a, b).conflicts ==> c in cs
    ensures ThreeWay(Childless(base.kind), Childless(a.kind), Childless(b.kind), KindFacet(enc, base, a, b).value,
      Clash(cs, base.id, KindCell))
  {
    var x, y, z := KindProbe(base), KindProbe(a), KindProbe(b);
    CanonicalClash(base.id, KindCell, enc(x), enc(y), enc(z), cs);
    assert enc(x) == enc(y) <==> Childless(base.kind) == Childless(a.kind);
    assert enc(x) == enc(z) <==> Childless(base.kind) == Childless(b.kind);
    assert enc(y) == enc(z) <==> Childless(a.kind) == Childless(b.kind);
  }

  lemma StatePicked(enc: Encoder, base: Node, a: Node, b: Node, cs: seq<Conflict>)
    requires Injective(enc) && a.id == base.id == b.id
    requires forall c :: c in StateFacet(enc, base, a, b).conflicts ==> c in cs
    ensures ThreeWay(base.state, a.state, b.state, StateFacet(enc, base, a, b).value, Clash(cs, base.id, StateCell))
  {
    var shell := Childless(base.kind);
    var x, y, z := StateProbe(shell, base), StateProbe(shell, a), StateProbe(shell, b);
    CanonicalClash(base.id, StateCell, enc(x), enc(y), enc(z), cs);
    assert enc(x) == enc(y) <==> base.state == a.state;
    assert enc(x) == enc(z) <==> base.state == b.state;
    assert enc(y) == enc(z) <==> a.state == b.state;
  }

  lemma AccessibilityPicked(enc: Encoder, base: Node, a: Node, b: Node, cs: seq<Conflict>)
    requires Injective(enc) && a.id == base.id == b.id
    requires forall c :: c in AccessibilityFacet(enc, base, a, b).conflicts ==> c in cs
    ensures ThreeWay(base.accessibility, a.accessibility, b.accessibility,
                     AccessibilityFacet(enc, base, a, b).value, Clash(cs, base.id, AccessibilityCell))
  {
    var shell := Childless(base.kind);
    var x, y, z := AccessibilityProbe(shell, base), AccessibilityProbe(shell, a), AccessibilityProbe(shell, b);
    CanonicalClash(base.id, AccessibilityCell, enc(x), enc(y), enc(z), cs);
    assert enc(x) == enc(y) <==> base.accessibility == a.accessibility;
    assert enc(x) == enc(z) <==> base.accessibility == b.accessibility;
    assert enc(y) == enc(z) <==> a.accessibility == b.accessibility;
  }

  /** The ids both sides insert, where they insert apart. */
  lemma InsertedFacts(baseIds: seq<Id>, aIds: seq<Id>, bIds: seq<Id>)
    requires NoRepeats(aIds) && NoRepeats(bIds)
    ensures var aNew, bNew := Filter(aIds, baseIds, false), Filter(bIds, baseIds, false);
      var tail := Ordinal.Sort(Adjoin(aNew, bNew));
      (Filter(bNew, aNew, true) == [] <==> forall x :: x in aIds && x in bIds ==> x in baseIds)
      && Ordinal.Sorted(tail) && NoRepeats(tail)
      && forall x :: x in tail <==> (x in aIds || x in bIds) && x !in baseIds
  {
    var aNew, bNew := Filter(aIds, baseIds, false), Filter(bIds, baseIds, false);
    FilterFacts(aIds, baseIds, false);
    FilterFacts(bIds, baseIds, false);
    FilterFacts(bNew, aNew, true);
    EmptyIfNoMember(Filter(bNew, aNew, true));
    AdjoinFacts(aNew, bNew);
    SortFacts(Adjoin(aNew, bNew));
    if forall x :: x in aIds && x in bIds ==> x in baseIds {
      forall x ensures x !in Filter(bNew, aNew, true) { }
    }
    forall x | x in aIds && x in bIds && x !in baseIds ensures x in Filter(bNew, aNew, true) { }
  }

  lemma BothInsert(baseIds: seq<Id>, tail: seq<Id>)
    requires NoRepeats(baseIds) && NoRepeats(tail) && forall x :: x in tail ==> x !in baseIds
    ensures NoRepeats(baseIds + tail) && (baseIds + tail)[..|baseIds|] == baseIds
      && (baseIds + tail)[|baseIds|..] == tail
  {
    var s := baseIds + tail;
    forall i, j | 0 <= i < j < |s| ensures s[i] != s[j] {
      if i < |baseIds| <= j {
        assert s[j] in tail && s[i] in baseIds;
      }
    }
  }

  /** The id list the merge keeps is the one it should, with no repeats. */
  lemma IdsPicked(base: Node, a: Node, b: Node, cs: seq<Conflict>)
    requires NoRepeats(ChildIds(base)) && NoRepeats(ChildIds(a)) && NoRepeats(ChildIds(b))
    requires forall c :: c in MergedIds(base, a, b).conflicts ==> c in cs
    ensures ChildrenPicked(base, a, b, MergedIds(base, a, b).value, cs)
    ensures NoRepeats(MergedIds(base, a, b).value)
    ensures forall x :: x in MergedIds(base, a, b).value ==> x in ChildIds(base) || x in ChildIds(a) || x in ChildIds(b)
    ensures forall x :: x in ChildIds(base) && x in ChildIds(a) && x in ChildIds(b) ==> x in MergedIds(base, a, b).value
  {
    var baseIds, aIds, bIds := ChildIds(base), ChildIds(a), ChildIds(b);
    if aIds != baseIds && bIds != baseIds && aIds != bIds {
      InsertedFacts(baseIds, aIds, bIds);
      if DisjointInserts(base, a, b) {
        BothInsert(baseIds, Ordinal.Sort(Adjoin(Filter(aIds, baseIds, false), Filter(bIds, baseIds, false))));
      } else {
        assert TwoSided(base.id, ChildrenCell, ReorderVsStructural, Join(baseIds), Join(aIds), Join(bIds))
          in MergedIds(base, a, b).conflicts;
      }
    }
  }

  lemma KeepsListed(base: Node, a: Node, b: Node, id: Id)
    requires NoRepeats(ChildIds(base)) && NoRepeats(ChildIds(a)) && NoRepeats(ChildIds(b))
    ensures id in MergedIds(base, a, b).value <==> Keeps(base, a, b, id)
  {
    var baseIds, aIds, bIds := ChildIds(base), ChildIds(a), ChildIds(b);
    if aIds != baseIds && bIds != baseIds && aIds != bIds {
      InsertedFacts(baseIds, aIds, bIds);
      if DisjointInserts(base, a, b) {
        FilterFacts(baseIds, aIds, true);
        assert id in baseIds ==> id in Filter(baseIds, aIds, true);
      }
    }
  }

  /** The children conflict is recorded exactly where the sides clash. */
  lemma ClashRecorded(base: Node, a: Node, b: Node)
    requires NoRepeats(ChildIds(a)) && NoRepeats(ChildIds(b))
    ensures MergedIds(base, a, b).conflicts == [] <==> !ChildrenClash(base, a, b)
    ensures ChildrenClash(base, a, b) ==> Clash(MergedIds(base, a, b).conflicts, base.id, ChildrenCell)
  {
    InsertedFacts(ChildIds(base), ChildIds(a), ChildIds(b));
    if ChildrenClash(base, a, b) {
      var c := MergedIds(base, a, b).conflicts[0];
      assert c in MergedIds(base, a, b).conflicts && c.nodeId == base.id && c.facet == ChildrenCell;
    }
  }

  lemma ListedLookup(enc: Encoder, base: Node, a: Node, b: Node, ids: seq<Id>, id: Id)
    requires Named(enc, base, a, b, ids) && NoRepeats(ids) && id in ids
    ensures var r, m := MergeListed(enc, base, a, b, ids), MergeChild(enc, base, a, b, id).value;
      Lookup(r.value, id) == Some(m.value) && forall c :: c in m.conflicts ==> c in r.conflicts
  {
    var i :| 0 <= i < |ids| && ids[i] == id;
    ListedAt(enc, base, a, b, ids, i);
    ListedIds(enc, base, a, b, ids);
    LookupHere(MergeListed(enc, base, a, b, ids).value, i);
  }

  lemma OwnPicked(enc: Encoder, base: Node, a: Node, b: Node, cs: seq<Conflict>)
    requires Injective(enc) && a.id == base.id == b.id
    requires forall c :: c in OwnConflicts(enc, base, a, b) ==> c in cs
    ensures FacetsPicked(base, a, b, Merge3(enc, base, a, b).value, cs)
  {
    KindPicked(enc, base, a, b, cs);
    StylePicked(base.id, base.style, a.style, b.style, cs);
    StatePicked(enc, base, a, b, cs);
    AccessibilityPicked(enc, base, a, b, cs);
  }

  /** At every node matched in all three trees, each facet of the merged node is the 3-way pick or a
      recorded conflict, the children facet included wherever the picked kind can hold children. */
  lemma {:induction false} MergePicksFacets(enc: Encoder, base: Node, a: Node, b: Node, cs: seq<Conflict>)
    requires Injective(enc) && a.id == base.id == b.id
    requires DistinctSiblings(base) && DistinctSiblings(a) && DistinctSiblings(b)
    requires forall c :: c in Merge3(enc, base, a, b).conflicts ==> c in cs
    ensures DeepPicked(base, a, b, Merge3(enc, base, a, b).value, cs)
    decreases Count(base)
  {
    var m := Merge3(enc, base, a, b).value;
    var ids := MergedIds(base, a, b).value;
    OwnPicked(enc, base, a, b, cs);
    IdsPicked(base, a, b, cs);
    IdsNamed(enc, base, a, b);
    ListedIds(enc, base, a, b, ids);
    KindIsPicked(enc, base, a, b);
    assert ChildrenPicked(base, a, b, ids, cs) && ChildIds(m) == (if PickedKind(base, a, b).Layout? then ids else []);
    forall id ensures id in ChildIds(m) <==> PickedKind(base, a, b).Layout? && Keeps(base, a, b, id) {
      KeepsListed(base, a, b, id);
    }
    ClashRecorded(base, a, b);
    forall id | MatchedBelow(base, a, b, id)
      ensures Lookup(Children(m), id).Some?
      ensures DeepPicked(Lookup(Children(base), id).value, Lookup(Children(a), id).value, Lookup(Children(b), id).value,
                         Lookup(Children(m), id).value, cs)
    {
      LookupChild(base, id);
      LookupChild(a, id);
      LookupChild(b, id);
      DistinctSiblingsChild(base, id);
      DistinctSiblingsChild(a, id);
      DistinctSiblingsChild(b, id);
      ListedLookup(enc, base, a, b, ids, id);
      MergePicksFacets(enc, Lookup(Children(base), id).value, Lookup(Children(a), id).value,
          Lookup(Children(b), id).value, cs);
    }
  }

  // ----- no cell conflicts twice -----

  ghost predicate KeysDiffer(c: Conflict, d: Conflict)
  {
    c.nodeId != d.nodeId || c.facet != d.facet
  }

  ghost predicate KeysDistinct(cs: seq<Conflict>)
  {
    forall i, j :: 0 <= i < j < |cs| ==> KeysDiffer(cs[i], cs[j])
  }

  /** A conflict of a subtree merge names one of the base's nodes, or a child the branch introduced. */
  ghost predicate KeyWithin(c: Conflict, baseIds: multiset<Id>, branchIds: multiset<Id>)
  {
    if c.facet == InsertCell then c.nodeId in branchIds else c.nodeId in baseIds
  }

  lemma KeysConcat(xs: seq<Conflict>, ys: seq<Conflict>)
    requires KeysDistinct(xs) && KeysDistinct(ys)
    requires forall c, d :: c in xs && d in ys ==> KeysDiffer(c, d)
    ensures KeysDistinct(xs + ys)
  {
    forall i, j | 0 <= i < j < |xs + ys| ensures KeysDiffer((xs + ys)[i], (xs + ys)[j]) {
      if i < |xs| <= j {
        assert (xs + ys)[i] in xs && (xs + ys)[j] in ys;
      }
    }
  }

  /** The order in which a node's cells are merged. */
  function Rank(f: Facet): nat
  {
    match f
    case KindCell => 0 case ToneCell => 1 case WeightCell => 2 case EmphasisCell => 3 case RoleCell => 4
    case VoiceCell => 5 case DirectionCell => 6 case StateCell => 7 case AccessibilityCell => 8
    case ChildrenCell => 9 case InsertCell => 10
  }

  /** Conflicts of one node's cells of lower rank, no cell twice. */
  ghost predicate Ranked(cs: seq<Conflict>, id: Id, low: nat, high: nat)
  {
    KeysDistinct(cs) && forall c :: c in cs ==> c.nodeId == id && low <= Rank(c.facet) < high
  }

  lemma RankedConcat(xs: seq<Conflict>, ys: seq<Conflict>, id: Id, low: nat, mid: nat, high: nat)
    requires Ranked(xs, id, low, mid) && Ranked(ys, id, mid, high) && low <= mid <= high
    ensures Ranked(xs + ys, id, low, high)
  {
    KeysConcat(xs, ys);
  }

  lemma FieldRanked(id: Id, facet: Facet, base: string, a: string, b: string)
    ensures Ranked(PickField(id, facet, base, a, b).conflicts, id, Rank(facet), Rank(facet) + 1)
  {
  }

  lemma CanonicalRanked(id: Id, facet: Facet, base: string, a: string, b: string)
    ensures Ranked(PickCanonical(id, facet, base, a, b).conflicts, id, Rank(facet), Rank(facet) + 1)
  {
  }

  lemma StyleRanked(id: Id, base: Style, a: Style, b: Style)
    ensures Ranked(MergeStyle(id, base, a, b).conflicts, id, 1, 7)
  {
    var tone := PickField(id, ToneCell, base.tone, a.tone, b.tone).conflicts;
    var weight := PickField(id, WeightCell, base.weight, a.weight, b.weight).conflicts;
    var emphasis := PickField(id, EmphasisCell, base.emphasis, a.emphasis, b.emphasis).conflicts;
    var role := PickField(id, RoleCell, base.role, a.role, b.role).conflicts;
    var voice := PickField(id, VoiceCell, base.voice, a.voice, b.voice).conflicts;
    var direction := PickField(id, DirectionCell, base.direction, a.direction, b.direction).conflicts;
    FieldRanked(id, ToneCell, base.tone, a.tone, b.tone);
    FieldRanked(id, WeightCell, base.weight, a.weight, b.weight);
    FieldRanked(id, EmphasisCell, base.emphasis, a.emphasis, b.emphasis);
    FieldRanked(id, RoleCell, base.role, a.role, b.role);
    FieldRanked(id, VoiceCell, base.voice, a.voice, b.voice);
    FieldRanked(id, DirectionCell, base.direction, a.direction, b.direction);
    RankedConcat(tone, weight, id, 1, 2, 3);
    RankedConcat(tone + weight, emphasis, id, 1, 3, 4);
    RankedConcat(tone + weight + emphasis, role, id, 1, 4, 5);
    RankedConcat(tone + weight + emphasis + role, voice, id, 1, 5, 6);
    RankedConcat(tone + weight + emphasis + role + voice, direction, id, 1, 6, 7);
  }

  lemma IdsRanked(base: Node, a: Node, b: Node)
    ensures Ranked(MergedIds(base, a, b).conflicts, base.id, 9, 10)
  {
  }

  lemma ProbesRanked(enc: Encoder, base: Node, a: Node, b: Node)
    ensures Ranked(KindFacet(enc, base, a, b).conflicts, base.id, 0, 1)
    ensures Ranked(StateFacet(enc, base, a, b).conflicts, base.id, 7, 8)
    ensures Ranked(AccessibilityFacet(enc, base, a, b).conflicts, base.id, 8, 9)
  {
    var id, shell := base.id, Childless(base.kind);
    CanonicalRanked(id, KindCell, enc(KindProbe(base)), enc(KindProbe(a)), enc(KindProbe(b)));
    CanonicalRanked(id, StateCell, enc(StateProbe(shell, base)), enc(StateProbe(shell, a)), enc(StateProbe(shell, b)));
    CanonicalRanked(id, AccessibilityCell, enc(AccessibilityProbe(shell, base)),
                    enc(AccessibilityProbe(shell, a)), enc(AccessibilityProbe(shell, b)));
  }

  lemma OwnKeys(enc: Encoder, base: Node, a: Node, b: Node)
    ensures Ranked(OwnConflicts(enc, base, a, b), base.id, 0, 10)
  {
    ProbesRanked(enc, base, a, b);
    StyleRanked(base.id, base.style, a.style, b.style);
    IdsRanked(base, a, b);
    RankedTogether(base.id, KindFacet(enc, base, a, b).conflicts,
                   MergeStyle(base.id, base.style, a.style, b.style).conflicts, StateFacet(enc, base, a, b).conflicts,
                   AccessibilityFacet(enc, base, a, b).conflicts, MergedIds(base, a, b).conflicts);
  }

  lemma RankedTogether(id: Id, kind: seq<Conflict>, style: seq<Conflict>, state: seq<Conflict>, acc: seq<Conflict>,
                       ids: seq<Conflict>)
    requires Ranked(kind, id, 0, 1) && Ranked(style, id, 1, 7) && Ranked(state, id, 7, 8)
    requires Ranked(acc, id, 8, 9) && Ranked(ids, id, 9, 10)
    ensures Ranked(kind + style + state + acc + ids, id, 0, 10)
  {
    RankedConcat(kind, style, id, 0, 1, 7);
    RankedConcat(kind + style, state, id, 0, 7, 8);
    RankedConcat(kind + style + state, acc, id, 0, 8, 9);
    RankedConcat(kind + style + state + acc, ids, id, 0, 9, 10);
  }

  lemma MatchedIdsBelow(n: Node, id: Id)
    requires UniqueIds(n) && Lookup(Children(n), id).Some?
    ensures var c := Lookup(Children(n), id).value; UniqueIds(c) && Ids(c) <= Ids(n) && n.id !in Ids(c) && c.id == id
  {
    LookupChild(n, id);
    var c := Lookup(Children(n), id).value;
    var i :| 0 <= i < |Children(n)| && Children(n)[i] == c;
    ChildPositions(n, i);
    UniqueBelow(n);
    DistinctMember(ChildNodes(n), i);
  }

  /** Two children looked up under different ids share no id. */
  lemma MatchedApart(n: Node, id: Id, id': Id)
    requires UniqueIds(n) && id != id' && Lookup(Children(n), id).Some? && Lookup(Children(n), id').Some?
    ensures Ids(Lookup(Children(n), id).value) !! Ids(Lookup(Children(n), id').value)
  {
    LookupChild(n, id);
    LookupChild(n, id');
    var c, d := Lookup(Children(n), id).value, Lookup(Children(n), id').value;
    var i :| 0 <= i < |Children(n)| && Children(n)[i] == c;
    var j :| 0 <= j < |Children(n)| && Children(n)[j] == d;
    ChildPositions(n, i);
    ChildPositions(n, j);
    UniqueBelow(n);
    if i < j { PositionsDisjoint(ChildNodes(n), i, j); } else { PositionsDisjoint(ChildNodes(n), j, i); }
  }

  ghost function IdsUnder(n: Node, id: Id): multiset<Id>
  {
    var c := Lookup(Children(n), id);
    if c.Some? then Ids(c.value) else multiset{}
  }

  lemma {:induction false} MergeKeys(enc: Encoder, base: Node, a: Node, b: Node)
    requires Injective(enc) && a.id == base.id == b.id
    requires UniqueIds(base) && UniqueIds(a) && DistinctSiblings(base) && DistinctSiblings(a) && DistinctSiblings(b)
    ensures KeysDistinct(Merge3(enc, base, a, b).conflicts)
    ensures forall c :: c in Merge3(enc, base, a, b).conflicts ==> KeyWithin(c, Ids(base), Ids(a))
    decreases Count(base), 2, 0
  {
    var ids := MergedIds(base, a, b).value;
    IdsPicked(base, a, b, MergedIds(base, a, b).conflicts);
    OwnKeys(enc, base, a, b);
    ListedKeys(enc, base, a, b, ids);
    ListedWithin(enc, base, a, b, ids);
    CombineKeys(OwnConflicts(enc, base, a, b), MergeListed(enc, base, a, b, ids).conflicts, base, a);
  }

  lemma CombineKeys(own: seq<Conflict>, below: seq<Conflict>, base: Node, a: Node)
    requires Ranked(own, base.id, 0, 10) && KeysDistinct(below)
    requires forall d :: d in below ==>
      KeyWithin(d, Ids(base), Ids(a)) && (d.facet == InsertCell || d.nodeId != base.id)
    ensures KeysDistinct(own + below) && forall c :: c in own + below ==> KeyWithin(c, Ids(base), Ids(a))
  {
    OwnDiffer(own, below, base.id);
    KeysConcat(own, below);
    assert base.id in Ids(base);
    forall c | c in own + below ensures KeyWithin(c, Ids(base), Ids(a)) {
      if c in own { OwnWithin(own, c, base, a); }
    }
  }

  lemma OwnWithin(own: seq<Conflict>, c: Conflict, base: Node, a: Node)
    requires Ranked(own, base.id, 0, 10) && c in own
    ensures KeyWithin(c, Ids(base), Ids(a))
  {
    assert base.id in Ids(base);
  }

  lemma OwnDiffer(own: seq<Conflict>, below: seq<Conflict>, id: Id)
    requires Ranked(own, id, 0, 10) && forall d :: d in below ==> d.facet == InsertCell || d.nodeId != id
    ensures forall c, d :: c in own && d in below ==> KeysDiffer(c, d)
  {
  }

  lemma {:induction false} ListedWithin(enc: Encoder, base: Node, a: Node, b: Node, ids: seq<Id>)
    requires Injective(enc) && a.id == base.id == b.id
    requires UniqueIds(base) && UniqueIds(a) && DistinctSiblings(base) && DistinctSiblings(a) && DistinctSiblings(b)
    ensures forall d :: d in MergeListed(enc, base, a, b, ids).conflicts ==>
      KeyWithin(d, Ids(base), Ids(a)) && (d.facet == InsertCell || d.nodeId != base.id)
    decreases Count(base), 1, |ids| + 1
  {
    forall d | d in MergeListed(enc, base, a, b, ids).conflicts
      ensures KeyWithin(d, Ids(base), Ids(a)) && (d.facet == InsertCell || d.nodeId != base.id)
    {
      var id := ListedOwner(enc, base, a, b, ids, d);
      UnderKeys(base, a, id, d);
    }
  }

  lemma UnderKeys(base: Node, a: Node, id: Id, d: Conflict)
    requires UniqueIds(base) && UniqueIds(a) && KeyWithin(d, IdsUnder(base, id), IdsUnder(a, id))
    ensures KeyWithin(d, Ids(base), Ids(a)) && (d.facet == InsertCell || d.nodeId != base.id)
  {
    MatchedIdsBelow(if d.facet == InsertCell then a else base, id);
  }

  /** Which listed child a conflict below came from, and what it names. */
  lemma {:induction false} ListedOwner(enc: Encoder, base: Node, a: Node, b: Node, ids: seq<Id>, d: Conflict)
    returns (id: Id)
    requires Injective(enc) && a.id == base.id == b.id
    requires UniqueIds(base) && UniqueIds(a) && DistinctSiblings(base) && DistinctSiblings(a) && DistinctSiblings(b)
    requires d in MergeListed(enc, base, a, b, ids).conflicts
    ensures id in ids && KeyWithin(d, IdsUnder(base, id), IdsUnder(a, id))
    decreases Count(base), 1, |ids|
  {
    var front, last := ids[..|ids| - 1], ids[|ids| - 1];
    if d in MergeListed(enc, base, a, b, front).conflicts {
      id := ListedOwner(enc, base, a, b, front, d);
    } else {
      id := last;
      ChildKeys(enc, base, a, b, last);
    }
  }

  lemma {:induction false} ListedKeys(enc: Encoder, base: Node, a: Node, b: Node, ids: seq<Id>)
    requires Injective(enc) && a.id == base.id == b.id && NoRepeats(ids)
    requires UniqueIds(base) && UniqueIds(a) && DistinctSiblings(base) && DistinctSiblings(a) && DistinctSiblings(b)
    ensures KeysDistinct(MergeListed(enc, base, a, b, ids).conflicts)
    decreases Count(base), 1, |ids|
  {
    if ids != [] {
      var front, last := ids[..|ids| - 1], ids[|ids| - 1];
      ListedKeys(enc, base, a, b, front);
      ChildKeys(enc, base, a, b, last);
      var m := MergeChild(enc, base, a, b, last);
      if m.Some? {
        forall c, d | c in MergeListed(enc, base, a, b, front).conflicts && d in m.value.conflicts
          ensures KeysDiffer(c, d)
        {
          var id := ListedOwner(enc, base, a, b, front, c);
          ChildrenKeysDiffer(base, a, id, last, c, d);
        }
        KeysConcat(MergeListed(enc, base, a, b, front).conflicts, m.value.conflicts);
      }
    }
  }

  lemma ChildrenKeysDiffer(base: Node, a: Node, id: Id, id': Id, c: Conflict, d: Conflict)
    requires UniqueIds(base) && UniqueIds(a) && id != id'
    requires KeyWithin(c, IdsUnder(base, id), IdsUnder(a, id)) && KeyWithin(d, IdsUnder(base, id'), IdsUnder(a, id'))
    ensures KeysDiffer(c, d)
  {
    if c.facet == d.facet {
      var n := if c.facet == InsertCell then a else base;
      MatchedApart(n, id, id');
      NotInBoth(IdsUnder(n, id), IdsUnder(n, id'), d.nodeId);
    }
  }

  /** A child the first branch does not hold merges without conflict. */
  lemma UnheldQuiet(enc: Encoder, base: Node, a: Node, b: Node, id: Id)
    requires Injective(enc) && DistinctSiblings(base) && DistinctSiblings(b)
    requires Lookup(Children(base), id).Some? && Lookup(Children(a), id).None?
    ensures MergeChild(enc, base, a, b, id).value.conflicts == []
  {
    var c, bc := Lookup(Children(base), id).value, Lookup(Children(b), id);
    LookupChild(base, id);
    DistinctSiblingsChild(base, id);
    if bc.Some? { LookupChild(b, id); DistinctSiblingsChild(b, id); }
    OneSided(enc, c, Or(bc, c), c);
    ConflictsTranspose(enc, c, Or(bc, c), c);
  }

  lemma IntroducedKeys(enc: Encoder, base: Node, a: Node, b: Node, id: Id)
    requires Lookup(Children(base), id).None?
    ensures var m := MergeChild(enc, base, a, b, id);
      m.Some? ==> KeysDistinct(m.value.conflicts)
                  && forall c :: c in m.value.conflicts ==> KeyWithin(c, IdsUnder(base, id), IdsUnder(a, id))
  {
    if Lookup(Children(a), id).Some? { LookupChild(a, id); }
  }

  lemma {:induction false} ChildKeys(enc: Encoder, base: Node, a: Node, b: Node, id: Id)
    requires Injective(enc) && a.id == base.id == b.id
    requires UniqueIds(base) && UniqueIds(a) && DistinctSiblings(base) && DistinctSiblings(a) && DistinctSiblings(b)
    ensures var m := MergeChild(enc, base, a, b, id);
      m.Some? ==> KeysDistinct(m.value.conflicts)
                  && forall c :: c in m.value.conflicts ==> KeyWithin(c, IdsUnder(base, id), IdsUnder(a, id))
    decreases Count(base), 0, 0
  {
    var c, ac, bc := Lookup(Children(base), id), Lookup(Children(a), id), Lookup(Children(b), id);
    if c.None? {
      IntroducedKeys(enc, base, a, b, id);
    } else if ac.None? {
      UnheldQuiet(enc, base, a, b, id);
    } else {
      LookupChild(base, id);
      MatchedIdsBelow(base, id);
      DistinctSiblingsChild(base, id);
      if bc.Some? { LookupChild(b, id); DistinctSiblingsChild(b, id); }
      MatchedIdsBelow(a, id);
      DistinctSiblingsChild(a, id);
      MergeKeys(enc, c.value, ac.value, Or(bc, c.value));
    }
  }

  /** One merge never records two conflicts for one facet of one node. */
  lemma NoCellConflictsTwice(enc: Encoder, base: Node, a: Node, b: Node)
    requires Injective(enc) && a.id == base.id == b.id
    requires UniqueIds(base) && UniqueIds(a) && DistinctSiblings(base) && DistinctSiblings(a) && DistinctSiblings(b)
    ensures KeysDistinct(Merge3(enc, base, a, b).conflicts)
  {
    MergeKeys(enc, base, a, b);
  }

  // ----- which children a merge loses -----

  lemma ChildFate(enc: Encoder, base: Node, a: Node, b: Node, id: Id)
    requires Injective(enc) && NoRepeats(ChildIds(base)) && NoRepeats(ChildIds(a)) && NoRepeats(ChildIds(b))
    ensures id in ChildIds(Merge3(enc, base, a, b).value) <==> PickedKind(base, a, b).Layout? && Keeps(base, a, b, id)
  {
    KindIsPicked(enc, base, a, b);
    IdsNamed(enc, base, a, b);
    ListedIds(enc, base, a, b, MergedIds(base, a, b).value);
    KeepsListed(base, a, b, id);
  }

  /** The child a merge keeps under an id is the merge of that child. */
  lemma KeptChild(enc: Encoder, base: Node, a: Node, b: Node, id: Id)
    requires Injective(enc) && NoRepeats(ChildIds(base)) && NoRepeats(ChildIds(a)) && NoRepeats(ChildIds(b))
    requires id in ChildIds(Merge3(enc, base, a, b).value)
    ensures var m := MergeChild(enc, base, a, b, id);
      m.Some? && Lookup(Children(Merge3(enc, base, a, b).value), id) == Some(m.value.value)
  {
    var ids := MergedIds(base, a, b).value;
    ChildFate(enc, base, a, b, id);
    KeepsListed(base, a, b, id);
    IdsPicked(base, a, b, MergedIds(base, a, b).conflicts);
    IdsNamed(enc, base, a, b);
    ListedLookup(enc, base, a, b, ids, id);
  }

  /** The child inserted under an id: the one branch's, or, where both insert one, the one whose canonical
      text comes first. */
  function InsertedChild(enc: Encoder, a: Node, b: Node, id: Id): Option<Node>
  {
    var ac, bc := Lookup(Children(a), id), Lookup(Children(b), id);
    if ac.None? then bc
    else if bc.None? || ac == bc || Ordinal.Leq(enc(ac.value), enc(bc.value)) then ac
    else bc
  }

  lemma InsertedMerge(enc: Encoder, base: Node, a: Node, b: Node, id: Id)
    requires Injective(enc) && id !in ChildIds(base) && MergeChild(enc, base, a, b, id).Some?
    ensures InsertedChild(enc, a, b, id) == Some(MergeChild(enc, base, a, b, id).value.value)
  {
  }

  /** A child inserted under a node that all three trees hold is in the merge if and only if the kind
      picked holds children and the sides did not restructure apart, and it is then the inserted subtree as
      it stands. Only where they did does the children cell conflict, so an insert is lost silently exactly
      under a retyped node. */
  lemma InsertKeptExactly(enc: Encoder, base: Node, a: Node, b: Node, id: Id)
    requires Injective(enc) && NoRepeats(ChildIds(base)) && NoRepeats(ChildIds(a)) && NoRepeats(ChildIds(b))
    requires id !in ChildIds(base) && (id in ChildIds(a) || id in ChildIds(b))
    ensures id in ChildIds(Merge3(enc, base, a, b).value)
            <==> PickedKind(base, a, b).Layout? && !ChildrenClash(base, a, b)
    ensures id in ChildIds(Merge3(enc, base, a, b).value) ==>
      Lookup(Children(Merge3(enc, base, a, b).value), id) == InsertedChild(enc, a, b, id)
    ensures MergedIds(base, a, b).conflicts == [] <==> !ChildrenClash(base, a, b)
    ensures id !in ChildIds(Merge3(enc, base, a, b).value) && MergedIds(base, a, b).conflicts == []
            <==> !PickedKind(base, a, b).Layout? && !ChildrenClash(base, a, b)
  {
    ChildFate(enc, base, a, b, id);
    ClashRecorded(base, a, b);
    if id in ChildIds(Merge3(enc, base, a, b).value) {
      KeptChild(enc, base, a, b, id);
      InsertedMerge(enc, base, a, b, id);
    }
  }

  /** A child one branch deletes and the other still holds is in the merge if and only if that other branch
      restructured too and the kind picked holds children; it is then the other branch's edit of it, and
      the children cell conflicts. Otherwise the edit is dropped and no conflict says so. */
  lemma DeletedEditKeptExactly(enc: Encoder, base: Node, a: Node, b: Node, id: Id)
    requires Injective(enc) && NoRepeats(ChildIds(base)) && NoRepeats(ChildIds(a)) && NoRepeats(ChildIds(b))
    requires id in ChildIds(base) && (id in ChildIds(a)) != (id in ChildIds(b))
    requires DistinctSiblings(if id in ChildIds(a) then a else b)
    ensures var m, keeper := Merge3(enc, base, a, b).value, if id in ChildIds(a) then a else b;
      (id in ChildIds(m) <==> PickedKind(base, a, b).Layout? && ChildIds(keeper) != ChildIds(base))
      && (MergedIds(base, a, b).conflicts == [] <==> ChildIds(keeper) == ChildIds(base))
      && (id in ChildIds(m) ==>
        Lookup(Children(m), id)
        == Some(Settled(Lookup(Children(base), id).value, Lookup(Children(keeper), id).value)))
  {
    var deleter := if id in ChildIds(a) then b else a;
    ChildFate(enc, base, a, b, id);
    ClashRecorded(base, a, b);
    DeletionIsNoAddition(ChildIds(base), ChildIds(deleter), id);
    if id in ChildIds(Merge3(enc, base, a, b).value) {
      KeptChild(enc, base, a, b, id);
      EditSurvives(enc, base, a, b, id);
    }
  }

  lemma DeletionIsNoAddition(baseIds: seq<Id>, ids: seq<Id>, id: Id)
    requires id in baseIds && id !in ids
    ensures !IsPureAddition(baseIds, ids)
  {
    FilterFacts(baseIds, ids, true);
  }

  lemma HeldMerge(enc: Encoder, base: Node, a: Node, b: Node, id: Id)
    requires id in ChildIds(base) && (id in ChildIds(a)) != (id in ChildIds(b))
    ensures var c := Lookup(Children(base), id).value;
      MergeChild(enc, base, a, b, id)
      == Some(if id in ChildIds(a) then Merge3(enc, c, Lookup(Children(a), id).value, c)
              else Merge3(enc, c, c, Lookup(Children(b), id).value))
  {
  }

  lemma OneSidedEither(enc: Encoder, base: Node, a: Node)
    requires Injective(enc) && DistinctSiblings(a) && a.id == base.id
    ensures Merge3(enc, base, a, base).value == Settled(base, a) == Merge3(enc, base, base, a).value
  {
    OneSided(enc, base, a, base);
    MergeTransposes(enc, base, a, base);
  }

  lemma EditSurvives(enc: Encoder, base: Node, a: Node, b: Node, id: Id)
    requires Injective(enc) && id in ChildIds(base) && (id in ChildIds(a)) != (id in ChildIds(b))
    requires DistinctSiblings(if id in ChildIds(a) then a else b)
    ensures var keeper := if id in ChildIds(a) then a else b;
      MergeChild(enc, base, a, b, id).value.value
      == Settled(Lookup(Children(base), id).value, Lookup(Children(keeper), id).value)
  {
    var keeper := if id in ChildIds(a) then a else b;
    LookupChild(base, id);
    LookupChild(keeper, id);
    DistinctSiblingsChild(keeper, id);
    HeldMerge(enc, base, a, b, id);
    OneSidedEither(enc, Lookup(Children(base), id).value, Lookup(Children(keeper), id).value);
  }

  /** Such an edit: one branch deletes the only child and the other only edits it. The merge is the
      deletion, whatever the edit, with no conflict. */
  lemma EditOfDeletedChildLost(enc: Encoder, base: Node, c: Node, d: Node)
    requires Injective(enc) && base.kind.Layout? && base.kind.children == [c] && d.id == c.id
    requires base.tooltip.None? && base.visible.None? && base.fallback.None?
    ensures var a, b := WithLayoutChildren(base, []), WithLayoutChildren(base, [d]);
      Merge3Way(enc, base, a, b) == Merged(a)
  {
    var a, b := WithLayoutChildren(base, []), WithLayoutChildren(base, [d]);
    assert ChildIds(base) == [c.id] == ChildIds(b) && ChildIds(a) == [];
    assert MergedIds(base, a, b) == Outcome([], []);
    var shell := Childless(base.kind);
    assert KindProbe(a) == KindProbe(base) == KindProbe(b);
    assert StateProbe(shell, a) == StateProbe(shell, base) == StateProbe(shell, b);
    assert AccessibilityProbe(shell, a) == AccessibilityProbe(shell, base) == AccessibilityProbe(shell, b);
    assert MergeListed(enc, base, a, b, []) == Outcome([], []);
  }

  /** Where one branch turns an empty layout node into a kind that holds no children and the other
      inserts a child under it, the child is dropped and no conflict is recorded. */
  lemma InsertUnderRetypedNodeLost(enc: Encoder, base: Node, leaf: Kind, d: Node)
    requires Injective(enc) && base.kind.Layout? && base.kind.children == [] && leaf.Leaf?
    requires base.tooltip.None? && base.visible.None? && base.fallback.None?
    ensures var a, b := base.(kind := leaf), WithLayoutChildren(base, [d]);
      Merge3Way(enc, base, a, b) == Merged(a) && d.id !in ChildIds(a)
  {
    var a, b := base.(kind := leaf), WithLayoutChildren(base, [d]);
    assert ChildIds(base) == [] == ChildIds(a) && ChildIds(b) == [d.id];
    var shell := Childless(base.kind);
    assert KindProbe(b) == KindProbe(base) && KindProbe(a) != KindProbe(base);
    assert StateProbe(shell, a) == StateProbe(shell, base) == StateProbe(shell, b);
    assert AccessibilityProbe(shell, a) == AccessibilityProbe(shell, base) == AccessibilityProbe(shell, b);
    assert [d.id][..0] == [] && Lookup(Children(base), d.id).None? && Lookup(Children(a), d.id).None?;
    ChildShape(enc, base, a, b, d.id);
    assert MergeListed(enc, base, a, b, [d.id]).conflicts == [];
  }
}
