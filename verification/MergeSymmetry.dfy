/** What merging in the other order changes: never the conflicts, and the tree exactly where ids do not commute. */
module MergeSymmetry {
  import opened Trees
  import opened TreeOps
  import opened TreeFacts
  import opened Merge
  import Ordinal

  function Transpose(c: Conflict): Conflict
  {
    c.(a := c.b, b := c.a)
  }

  function TransposeAll(cs: seq<Conflict>): seq<Conflict>
  {
    seq(|cs|, i requires 0 <= i < |cs| => Transpose(cs[i]))
  }

  function TransposeResult(r: MergeResult): MergeResult
  {
    match r
    case Merged(_) => r
    case Conflicts(cs) => Conflicts(TransposeAll(cs))
  }

  lemma TransposeConcat(xs: seq<Conflict>, ys: seq<Conflict>)
    ensures TransposeAll(xs + ys) == TransposeAll(xs) + TransposeAll(ys)
  {
  }

  /** The layout children of every layout node below have distinct ids. */
  predicate DistinctSiblings(n: Node)
    decreases Count(n), 0
  {
    NoRepeats(ChildIds(n)) && (n.kind.Layout? ==> (ChildrenSmaller(n); DistinctSiblingsAll(n.kind.children)))
  }

  predicate DistinctSiblingsAll(ns: seq<Node>)
    decreases CountAll(ns), 1
  {
    ns == [] || (DistinctSiblings(ns[0]) && DistinctSiblingsAll(ns[1..]))
  }

  lemma ChildrenSmaller(n: Node)
    requires n.kind.Layout?
    ensures CountAll(n.kind.children) < Count(n)
  {
    CountAllConcat(n.kind.children, OptionSeq(n.state.onLoading) + OptionSeq(n.state.onEmpty));
    assert ChildNodes(n) == n.kind.children + (OptionSeq(n.state.onLoading) + OptionSeq(n.state.onEmpty));
  }

  lemma {:induction false} DistinctSiblingsMember(ns: seq<Node>, c: Node)
    requires DistinctSiblingsAll(ns) && c in ns
    ensures DistinctSiblings(c)
  {
    if c != ns[0] { DistinctSiblingsMember(ns[1..], c); }
  }

  lemma DistinctSiblingsChild(n: Node, id: Id)
    requires DistinctSiblings(n) && Lookup(Children(n), id).Some?
    ensures DistinctSiblings(Lookup(Children(n), id).value)
  {
    LookupChild(n, id);
    DistinctSiblingsMember(n.kind.children, Lookup(Children(n), id).value);
  }

  // ----- the facets of one node -----

  lemma StyleSymmetric(id: Id, base: Style, a: Style, b: Style)
    ensures MergeStyle(id, base, b, a)
         == Outcome(MergeStyle(id, base, a, b).value, TransposeAll(MergeStyle(id, base, a, b).conflicts))
  {
    FieldSymmetric(id, ToneCell, base.tone, a.tone, b.tone);
    FieldSymmetric(id, WeightCell, base.weight, a.weight, b.weight);
    FieldSymmetric(id, EmphasisCell, base.emphasis, a.emphasis, b.emphasis);
    FieldSymmetric(id, RoleCell, base.role, a.role, b.role);
    FieldSymmetric(id, VoiceCell, base.voice, a.voice, b.voice);
    FieldSymmetric(id, DirectionCell, base.direction, a.direction, b.direction);
    var tone := PickField(id, ToneCell, base.tone, a.tone, b.tone).conflicts;
    var weight := PickField(id, WeightCell, base.weight, a.weight, b.weight).conflicts;
    var emphasis := PickField(id, EmphasisCell, base.emphasis, a.emphasis, b.emphasis).conflicts;
    var role := PickField(id, RoleCell, base.role, a.role, b.role).conflicts;
    var voice := PickField(id, VoiceCell, base.voice, a.voice, b.voice).conflicts;
    var direction := PickField(id, DirectionCell, base.direction, a.direction, b.direction).conflicts;
    TransposeConcat(tone, weight);
    TransposeConcat(tone + weight, emphasis);
    TransposeConcat(tone + weight + emphasis, role);
    TransposeConcat(tone + weight + emphasis + role, voice);
    TransposeConcat(tone + weight + emphasis + role + voice, direction);
  }

  lemma FieldSymmetric(id: Id, facet: Facet, base: string, a: string, b: string)
    ensures PickField(id, facet, base, b, a)
         == Outcome(PickField(id, facet, base, a, b).value, TransposeAll(PickField(id, facet, base, a, b).conflicts))
  {
  }

  /** Picking from the swapped sides picks the transposed side, or, where the sides agree, either. */
  lemma CanonicalSymmetric(id: Id, facet: Facet, base: string, a: string, b: string)
    ensures var p, q := PickCanonical(id, facet, base, a, b), PickCanonical(id, facet, base, b, a);
      q.conflicts == TransposeAll(p.conflicts)
      && (a == b || q.value == (match p.value case FromBase => FromBase case FromA => FromB case FromB => FromA))
      && (a == b && a == base ==> p.value == FromBase == q.value)
      && (a == b && a != base ==> p.value == FromA == q.value)
  {
  }

  lemma KindSymmetric(enc: Encoder, base: Node, a: Node, b: Node)
    requires Injective(enc)
    ensures KindFacet(enc, base, b, a)
      == Outcome(KindFacet(enc, base, a, b).value, TransposeAll(KindFacet(enc, base, a, b).conflicts))
  {
    CanonicalSymmetric(base.id, KindCell, enc(KindProbe(base)), enc(KindProbe(a)), enc(KindProbe(b)));
    if enc(KindProbe(a)) == enc(KindProbe(b)) { assert KindProbe(a) == KindProbe(b); }
  }

  lemma StateSymmetric(enc: Encoder, base: Node, a: Node, b: Node)
    requires Injective(enc)
    ensures StateFacet(enc, base, b, a)
      == Outcome(StateFacet(enc, base, a, b).value, TransposeAll(StateFacet(enc, base, a, b).conflicts))
  {
    var shell := Childless(base.kind);
    CanonicalSymmetric(base.id, StateCell, enc(StateProbe(shell, base)), enc(StateProbe(shell, a)),
        enc(StateProbe(shell, b)));
    if enc(StateProbe(shell, a)) == enc(StateProbe(shell, b)) { assert StateProbe(shell, a) == StateProbe(shell, b); }
  }

  lemma AccessibilitySymmetric(enc: Encoder, base: Node, a: Node, b: Node)
    requires Injective(enc)
    ensures AccessibilityFacet(enc, base, b, a)
         == Outcome(AccessibilityFacet(enc, base, a, b).value,
             TransposeAll(AccessibilityFacet(enc, base, a, b).conflicts))
  {
    var shell := Childless(base.kind);
    CanonicalSymmetric(base.id, AccessibilityCell, enc(AccessibilityProbe(shell, base)),
                       enc(AccessibilityProbe(shell, a)), enc(AccessibilityProbe(shell, b)));
    if enc(AccessibilityProbe(shell, a)) == enc(AccessibilityProbe(shell, b)) {
      assert AccessibilityProbe(shell, a) == AccessibilityProbe(shell, b);
    }
  }

  /** The kind the merge picks, children aside: the side that moved, or the base's where both moved apart. */
  function PickedKind(base: Node, a: Node, b: Node): Kind
  {
    if KindProbe(a) == KindProbe(base) then Childless(b.kind)
    else if KindProbe(b) == KindProbe(base) || KindProbe(a) == KindProbe(b) then Childless(a.kind)
    else Childless(base.kind)
  }

  lemma KindIsPicked(enc: Encoder, base: Node, a: Node, b: Node)
    requires Injective(enc)
    ensures KindFacet(enc, base, a, b).value == PickedKind(base, a, b)
  {
    var x, y, z := KindProbe(base), KindProbe(a), KindProbe(b);
    assert enc(x) == enc(y) <==> x == y;
    assert enc(x) == enc(z) <==> x == z;
    assert enc(y) == enc(z) <==> y == z;
  }

  // ----- the children facet -----

  lemma {:induction false} FilterFacts(ids: seq<Id>, other: seq<Id>, inside: bool)
    ensures forall x :: x in Filter(ids, other, inside) <==> x in ids && (x in other) == inside
    ensures NoRepeats(ids) ==> NoRepeats(Filter(ids, other, inside))
  {
    if ids != [] {
      FilterFacts(ids[1..], other, inside);
      if NoRepeats(ids) {
        assert NoRepeats(ids[1..]);
        forall x | x in Filter(ids[1..], other, inside) ensures x != ids[0] { }
      }
    }
  }

  lemma {:induction false} AdjoinFacts(a: seq<Id>, b: seq<Id>)
    ensures NoRepeats(a) ==> NoRepeats(Adjoin(a, b))
    ensures forall x :: x in Adjoin(a, b) <==> x in a || x in b
    decreases b
  {
    if b != [] {
      if b[0] in a { AdjoinFacts(a, b[1..]); } else { AdjoinFacts(a + [b[0]], b[1..]); }
    }
  }

  lemma SortFacts(s: seq<Id>)
    ensures Ordinal.Sorted(Ordinal.Sort(s)) && (NoRepeats(s) ==> NoRepeats(Ordinal.Sort(s)))
    ensures forall x :: x in Ordinal.Sort(s) <==> x in s
  {
    Ordinal.SortCorrect(s);
    var t := Ordinal.Sort(s);
    forall x ensures x in t <==> x in s {
      assert x in t <==> x in multiset(t);
      assert x in s <==> x in multiset(s);
    }
    if NoRepeats(s) && !NoRepeats(t) {
      var i, j :| 0 <= i < j < |t| && t[i] == t[j];
      RepeatedCounts(t, i, j);
      var k, l := TwoPositions(s, t[i]);
    }
  }

  lemma EmptyIfNoMember(s: seq<Id>)
    ensures s == [] <==> forall x :: x !in s
  {
    if s != [] { assert s[0] in s; }
  }

  lemma OverlapSymmetric(a: seq<Id>, b: seq<Id>)
    ensures Filter(b, a, true) == [] <==> Filter(a, b, true) == []
    ensures Filter(b, a, true) == [] ==> forall x :: x in b ==> x !in a
  {
    FilterFacts(a, b, true);
    FilterFacts(b, a, true);
    if Filter(b, a, true) != [] {
      assert Filter(b, a, true)[0] in Filter(a, b, true);
    }
    if Filter(a, b, true) != [] {
      assert Filter(a, b, true)[0] in Filter(b, a, true);
    }
  }

  /** How often an id occurs once a second list is adjoined: as in the first list, or else once. */
  lemma {:induction false} AdjoinCounts(a: seq<Id>, b: seq<Id>, x: Id)
    ensures multiset(Adjoin(a, b))[x] == if x in a then multiset(a)[x] else if x in b then 1 else 0
    decreases b
  {
    if b == [] {
      assert x in a <==> x in multiset(a);
    } else if b[0] in a {
      AdjoinCounts(a, b[1..], x);
    } else {
      AdjoinCounts(a + [b[0]], b[1..], x);
      assert multiset(a + [b[0]]) == multiset(a) + multiset{b[0]};
      assert b[0] !in multiset(a);
    }
  }

  /** Disjoint insertions sort to one list in either order of arrival if and only if neither side repeats an id. */
  lemma AdjoinCommutes(a: seq<Id>, b: seq<Id>)
    requires Filter(b, a, true) == []
    ensures Ordinal.Sort(Adjoin(b, a)) == Ordinal.Sort(Adjoin(a, b)) <==> NoRepeats(a) && NoRepeats(b)
  {
    OverlapSymmetric(a, b);
    Ordinal.SortComparesBags(Adjoin(b, a), Adjoin(a, b));
    NoRepeatsCounts(a);
    NoRepeatsCounts(b);
    var ab, ba := multiset(Adjoin(a, b)), multiset(Adjoin(b, a));
    forall x
      ensures ab[x] == if x in a then multiset(a)[x] else if x in b then 1 else 0
      ensures ba[x] == if x in b then multiset(b)[x] else if x in a then 1 else 0
    {
      AdjoinCounts(a, b, x);
      AdjoinCounts(b, a, x);
    }
    if NoRepeats(a) && NoRepeats(b) {
      forall x ensures ab[x] == ba[x] { }
    }
    if ab == ba {
      forall x | x in a ensures multiset(a)[x] == 1 { assert ab[x] == ba[x]; }
      forall x | x in b ensures multiset(b)[x] == 1 { assert ab[x] == ba[x]; }
    }
  }

  /** Both branches add children, neither removes or reorders one, and they add none alike: the one case
      in which the merge takes from both id lists. */
  predicate BothAdd(base: Node, a: Node, b: Node)
  {
    var baseIds, aIds, bIds := ChildIds(base), ChildIds(a), ChildIds(b);
    aIds != baseIds && bIds != baseIds && aIds != bIds && IsPureAddition(baseIds, aIds) && IsPureAddition(baseIds, bIds)
    && Filter(Filter(bIds, baseIds, false), Filter(aIds, baseIds, false), true) == []
  }

  /** Where both branches add children, neither adds two of one id. */
  predicate IdsCommute(base: Node, a: Node, b: Node)
  {
    BothAdd(base, a, b) ==>
      NoRepeats(Filter(ChildIds(a), ChildIds(base), false)) && NoRepeats(Filter(ChildIds(b), ChildIds(base), false))
  }

  /** Both orders of arrival record the same conflict, sides transposed, and they keep the same children
      exactly where the ids commute. */
  lemma IdsCommuteExactly(base: Node, a: Node, b: Node)
    ensures MergedIds(base, b, a).conflicts == TransposeAll(MergedIds(base, a, b).conflicts)
    ensures MergedIds(base, b, a).value == MergedIds(base, a, b).value <==> IdsCommute(base, a, b)
  {
    var baseIds := ChildIds(base);
    var aNew, bNew := Filter(ChildIds(a), baseIds, false), Filter(ChildIds(b), baseIds, false);
    OverlapSymmetric(aNew, bNew);
    if BothAdd(base, a, b) {
      AdjoinCommutes(aNew, bNew);
      SameTail(baseIds, Ordinal.Sort(Adjoin(bNew, aNew)), Ordinal.Sort(Adjoin(aNew, bNew)));
    }
  }

  lemma SameTail(front: seq<Id>, s: seq<Id>, t: seq<Id>)
    ensures front + s == front + t <==> s == t
  {
    assert (front + s)[|front|..] == s && (front + t)[|front|..] == t;
  }

  /** Every id the merge lists is a child's in one of the three trees. */
  lemma IdsKnown(base: Node, a: Node, b: Node)
    ensures forall x :: x in MergedIds(base, a, b).value ==> x in ChildIds(base) || x in ChildIds(a) || x in ChildIds(b)
  {
    var baseIds := ChildIds(base);
    var aNew, bNew := Filter(ChildIds(a), baseIds, false), Filter(ChildIds(b), baseIds, false);
    FilterFacts(ChildIds(a), baseIds, false);
    FilterFacts(ChildIds(b), baseIds, false);
    AdjoinFacts(aNew, bNew);
    SortFacts(Adjoin(aNew, bNew));
  }

  // ----- the merged children -----

  lemma {:induction false} ListedLength(enc: Encoder, base: Node, a: Node, b: Node, ids: seq<Id>)
    requires forall id :: id in ids ==> MergeChild(enc, base, a, b, id).Some?
    ensures |MergeListed(enc, base, a, b, ids).value| == |ids|
    decreases |ids|
  {
    if ids != [] {
      assert ids[|ids| - 1] in ids;
      ListedLength(enc, base, a, b, ids[..|ids| - 1]);
    }
  }

  lemma {:induction false} ListedAt(enc: Encoder, base: Node, a: Node, b: Node, ids: seq<Id>, i: nat)
    requires forall id :: id in ids ==> MergeChild(enc, base, a, b, id).Some?
    requires i < |ids|
    ensures var r, m := MergeListed(enc, base, a, b, ids), MergeChild(enc, base, a, b, ids[i]).value;
      |r.value| == |ids| && r.value[i] == m.value && forall c :: c in m.conflicts ==> c in r.conflicts
    decreases |ids|
  {
    var front := ids[..|ids| - 1];
    ListedLength(enc, base, a, b, ids);
    ListedLength(enc, base, a, b, front);
    assert ids[|ids| - 1] in ids;
    if i < |ids| - 1 {
      assert front[i] == ids[i];
      ListedAt(enc, base, a, b, front, i);
    }
  }

  lemma ChildShape(enc: Encoder, base: Node, a: Node, b: Node, id: Id)
    requires id in ChildIds(base) || id in ChildIds(a) || id in ChildIds(b)
    ensures MergeChild(enc, base, a, b, id).Some? && MergeChild(enc, base, a, b, id).value.value.id == id
  {
    if Lookup(Children(base), id).Some? { LookupChild(base, id); }
  }

  ghost predicate Named(enc: Encoder, base: Node, a: Node, b: Node, ids: seq<Id>)
  {
    forall id :: id in ids ==>
      MergeChild(enc, base, a, b, id).Some? && MergeChild(enc, base, a, b, id).value.value.id == id
  }

  /** The merged children carry the listed ids in the listed order. */
  lemma ListedIds(enc: Encoder, base: Node, a: Node, b: Node, ids: seq<Id>)
    requires Named(enc, base, a, b, ids)
    ensures IdSeq(MergeListed(enc, base, a, b, ids).value) == ids
  {
    var r := MergeListed(enc, base, a, b, ids).value;
    ListedLength(enc, base, a, b, ids);
    forall i | 0 <= i < |ids| ensures r[i].id == ids[i] {
      assert ids[i] in ids;
      ListedAt(enc, base, a, b, ids, i);
    }
  }

  lemma IdsNamed(enc: Encoder, base: Node, a: Node, b: Node)
    ensures Named(enc, base, a, b, MergedIds(base, a, b).value)
  {
    IdsKnown(base, a, b);
    forall id | id in MergedIds(base, a, b).value
      ensures MergeChild(enc, base, a, b, id).Some? && MergeChild(enc, base, a, b, id).value.value.id == id
    {
      ChildShape(enc, base, a, b, id);
    }
  }

  // ----- the conflicts of the whole merge -----

  /** Children one branch alone inserts bring no conflict. */
  lemma {:induction false} ListedQuiet(enc: Encoder, base: Node, a: Node, b: Node, front: seq<Id>, tail: seq<Id>)
    requires forall id :: id in tail && MergeChild(enc, base, a, b, id).Some? ==>
      MergeChild(enc, base, a, b, id).value.conflicts == []
    ensures MergeListed(enc, base, a, b, front + tail).conflicts == MergeListed(enc, base, a, b, front).conflicts
    decreases |tail|
  {
    if tail == [] {
      assert front + tail == front;
    } else {
      var n := |tail| - 1;
      ListedQuiet(enc, base, a, b, front, tail[..n]);
      assert (front + tail)[..|front + tail| - 1] == front + tail[..n];
      assert tail[n] in tail;
    }
  }

  lemma InsertedQuietly(enc: Encoder, base: Node, a: Node, b: Node)
    requires BothAdd(base, a, b)
    ensures MergeListed(enc, base, a, b, MergedIds(base, a, b).value).conflicts
         == MergeListed(enc, base, a, b, ChildIds(base)).conflicts
  {
    var baseIds := ChildIds(base);
    var aNew, bNew := Filter(ChildIds(a), baseIds, false), Filter(ChildIds(b), baseIds, false);
    FilterFacts(ChildIds(a), baseIds, false);
    FilterFacts(ChildIds(b), baseIds, false);
    OverlapSymmetric(aNew, bNew);
    AdjoinFacts(aNew, bNew);
    SortFacts(Adjoin(aNew, bNew));
    forall id | id in Ordinal.Sort(Adjoin(aNew, bNew)) && MergeChild(enc, base, a, b, id).Some?
      ensures MergeChild(enc, base, a, b, id).value.conflicts == []
    {
      assert id !in baseIds && !(id in ChildIds(a) && id in ChildIds(b));
    }
    ListedQuiet(enc, base, a, b, baseIds, Ordinal.Sort(Adjoin(aNew, bNew)));
  }

  /** On every input, merging in the other order records the same conflicts in the same order with only
      their two sides exchanged. */
  lemma {:induction false} ConflictsTranspose(enc: Encoder, base: Node, a: Node, b: Node)
    requires Injective(enc)
    ensures Merge3(enc, base, b, a).conflicts == TransposeAll(Merge3(enc, base, a, b).conflicts)
    decreases Count(base), 2, 0
  {
    var ids := MergedIds(base, a, b).value;
    IdsCommuteExactly(base, a, b);
    OwnTransposes(enc, base, a, b);
    if BothAdd(base, a, b) {
      OverlapSymmetric(Filter(ChildIds(a), ChildIds(base), false), Filter(ChildIds(b), ChildIds(base), false));
      InsertedQuietly(enc, base, a, b);
      InsertedQuietly(enc, base, b, a);
      ListedTransposes(enc, base, a, b, ChildIds(base));
    } else {
      ListedTransposes(enc, base, a, b, ids);
    }
    TransposeConcat(OwnConflicts(enc, base, a, b), MergeListed(enc, base, a, b, ids).conflicts);
  }

  lemma OwnTransposes(enc: Encoder, base: Node, a: Node, b: Node)
    requires Injective(enc)
    ensures OwnConflicts(enc, base, b, a) == TransposeAll(OwnConflicts(enc, base, a, b))
  {
    KindSymmetric(enc, base, a, b);
    StyleSymmetric(base.id, base.style, a.style, b.style);
    StateSymmetric(enc, base, a, b);
    AccessibilitySymmetric(enc, base, a, b);
    IdsCommuteExactly(base, a, b);
    var kind, style := KindFacet(enc, base, a, b).conflicts,
      MergeStyle(base.id, base.style, a.style, b.style).conflicts;
    var state, acc := StateFacet(enc, base, a, b).conflicts, AccessibilityFacet(enc, base, a, b).conflicts;
    TransposeConcat(kind, style);
    TransposeConcat(kind + style, state);
    TransposeConcat(kind + style + state, acc);
    TransposeConcat(kind + style + state + acc, MergedIds(base, a, b).conflicts);
  }

  lemma {:induction false} ListedTransposes(enc: Encoder, base: Node, a: Node, b: Node, ids: seq<Id>)
    requires Injective(enc)
    ensures MergeListed(enc, base, b, a, ids).conflicts == TransposeAll(MergeListed(enc, base, a, b, ids).conflicts)
    decreases Count(base), 1, |ids|
  {
    if ids != [] {
      var front, id := ids[..|ids| - 1], ids[|ids| - 1];
      ListedTransposes(enc, base, a, b, front);
      ChildTransposes(enc, base, a, b, id);
      var last := MergeChild(enc, base, a, b, id);
      if last.Some? {
        TransposeConcat(MergeListed(enc, base, a, b, front).conflicts, last.value.conflicts);
      }
    }
  }

  lemma {:induction false} ChildTransposes(enc: Encoder, base: Node, a: Node, b: Node, id: Id)
    requires Injective(enc)
    ensures var m, m' := MergeChild(enc, base, a, b, id), MergeChild(enc, base, b, a, id);
      if m.None? then m'.None? else m'.Some? && m'.value.conflicts == TransposeAll(m.value.conflicts)
    decreases Count(base), 0, 0
  {
    var c, ac, bc := Lookup(Children(base), id), Lookup(Children(a), id), Lookup(Children(b), id);
    if c.Some? {
      LookupChild(base, id);
      ConflictsTranspose(enc, c.value, Or(ac, c.value), Or(bc, c.value));
    }
  }

  // ----- the merged tree -----

  /** At this node and at every node below that the merge reaches and keeps, the ids commute. */
  predicate Commutes(base: Node, a: Node, b: Node)
    decreases Count(base)
  {
    PickedKind(base, a, b).Layout? ==>
      IdsCommute(base, a, b)
      && forall id :: id in MergedIds(base, a, b).value && Lookup(Children(base), id).Some? ==>
           (LookupChild(base, id);
            var c := Lookup(Children(base), id).value;
            Commutes(c, Or(Lookup(Children(a), id), c), Or(Lookup(Children(b), id), c)))
  }

  /** Merging in the other order gives the same node if and only if the ids commute throughout. */
  lemma {:induction false} ValuesCommute(enc: Encoder, base: Node, a: Node, b: Node)
    requires Injective(enc)
    ensures Merge3(enc, base, b, a).value == Merge3(enc, base, a, b).value <==> Commutes(base, a, b)
    decreases Count(base), 2
  {
    KindSymmetric(enc, base, a, b);
    StyleSymmetric(base.id, base.style, a.style, b.style);
    StateSymmetric(enc, base, a, b);
    AccessibilitySymmetric(enc, base, a, b);
    KindIsPicked(enc, base, a, b);
    if PickedKind(base, a, b).Layout? {
      ListsCommute(enc, base, a, b);
    }
  }

  ghost predicate ChildCommutes(base: Node, a: Node, b: Node, id: Id)
  {
    var c := Lookup(Children(base), id);
    c.Some? ==> Commutes(c.value, Or(Lookup(Children(a), id), c.value), Or(Lookup(Children(b), id), c.value))
  }

  lemma {:induction false} ListsCommute(enc: Encoder, base: Node, a: Node, b: Node)
    requires Injective(enc) && PickedKind(base, a, b).Layout?
    ensures (MergeListed(enc, base, b, a, MergedIds(base, b, a).value).value
             == MergeListed(enc, base, a, b, MergedIds(base, a, b).value).value) <==> Commutes(base, a, b)
    decreases Count(base), 1
  {
    var ids, ids' := MergedIds(base, a, b).value, MergedIds(base, b, a).value;
    var l, l' := MergeListed(enc, base, a, b, ids).value, MergeListed(enc, base, b, a, ids').value;
    IdsCommuteExactly(base, a, b);
    IdsNamed(enc, base, a, b);
    IdsNamed(enc, base, b, a);
    ListedIds(enc, base, a, b, ids);
    ListedIds(enc, base, b, a, ids');
    if ids == ids' {
      forall i | 0 <= i < |ids| ensures l[i] == l'[i] <==> ChildCommutes(base, a, b, ids[i]) {
        ListedAt(enc, base, a, b, ids, i);
        ListedAt(enc, base, b, a, ids, i);
        ChildValuesCommute(enc, base, a, b, ids[i]);
      }
      CommutesByIds(base, a, b);
      assert l == l' <==> forall i :: 0 <= i < |ids| ==> l[i] == l'[i];
    }
  }

  lemma CommutesByIds(base: Node, a: Node, b: Node)
    requires PickedKind(base, a, b).Layout? && IdsCommute(base, a, b)
    ensures var ids := MergedIds(base, a, b).value;
      Commutes(base, a, b) <==> forall i :: 0 <= i < |ids| ==> ChildCommutes(base, a, b, ids[i])
  {
    var ids := MergedIds(base, a, b).value;
    if forall i :: 0 <= i < |ids| ==> ChildCommutes(base, a, b, ids[i]) {
      forall id | id in ids ensures ChildCommutes(base, a, b, id) { }
    }
  }

  lemma {:induction false} ChildValuesCommute(enc: Encoder, base: Node, a: Node, b: Node, id: Id)
    requires Injective(enc) && MergeChild(enc, base, a, b, id).Some?
    ensures MergeChild(enc, base, b, a, id).Some?
    ensures (MergeChild(enc, base, b, a, id).value.value == MergeChild(enc, base, a, b, id).value.value)
            <==> ChildCommutes(base, a, b, id)
    decreases Count(base), 0
  {
    var c, ac, bc := Lookup(Children(base), id), Lookup(Children(a), id), Lookup(Children(b), id);
    if c.Some? {
      LookupChild(base, id);
      ValuesCommute(enc, c.value, Or(ac, c.value), Or(bc, c.value));
    } else if ac.Some? && bc.Some? {
      var av, bv := enc(ac.value), enc(bc.value);
      Ordinal.LeqTotal(av, bv);
      if Ordinal.Leq(av, bv) && Ordinal.Leq(bv, av) {
        Ordinal.LeqAntisymmetric(av, bv);
      }
    }
  }

  /** A branch the symmetry covers: the base itself, or one whose siblings have distinct ids. */
  predicate Branch(base: Node, x: Node)
  {
    x == base || DistinctSiblings(x)
  }

  lemma {:induction false} BranchesCommute(base: Node, a: Node, b: Node)
    requires Branch(base, a) && Branch(base, b)
    ensures Commutes(base, a, b)
    decreases Count(base)
  {
    if BothAdd(base, a, b) {
      FilterFacts(ChildIds(a), ChildIds(base), false);
      FilterFacts(ChildIds(b), ChildIds(base), false);
    }
    forall id | id in MergedIds(base, a, b).value && Lookup(Children(base), id).Some?
      ensures ChildCommutes(base, a, b, id)
    {
      LookupChild(base, id);
      var c, ac, bc := Lookup(Children(base), id).value, Lookup(Children(a), id), Lookup(Children(b), id);
      if ac.Some? && a != base { DistinctSiblingsChild(a, id); }
      if bc.Some? && b != base { DistinctSiblingsChild(b, id); }
      BranchesCommute(c, Or(ac, c), Or(bc, c));
    }
  }

  /** Where siblings have distinct ids, the other order gives the same node and the same conflicts in the
      same order with only their two sides exchanged. */
  lemma MergeTransposes(enc: Encoder, base: Node, a: Node, b: Node)
    requires Injective(enc) && Branch(base, a) && Branch(base, b)
    ensures Merge3(enc, base, b, a)
         == Outcome(Merge3(enc, base, a, b).value, TransposeAll(Merge3(enc, base, a, b).conflicts))
  {
    ConflictsTranspose(enc, base, a, b);
    BranchesCommute(base, a, b);
    ValuesCommute(enc, base, a, b);
  }

  lemma MergeSymmetric(enc: Encoder, base: Node, a: Node, b: Node)
    requires Injective(enc) && DistinctSiblings(a) && DistinctSiblings(b)
    ensures Merge3Way(enc, base, b, a) == TransposeResult(Merge3Way(enc, base, a, b))
  {
    MergeTransposes(enc, base, a, b);
  }
}
