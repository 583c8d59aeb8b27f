/** When a merge is refused, cell by cell, and so when its result does not depend on the order of the branches. */
module MergeClean {
  import opened Trees
  import opened TreeOps
  import opened Merge
  import opened MergeSymmetry

  // ----- the cells of one node -----

  /** Both sides moved, and not alike. */
  predicate Apart<T(==)>(base: T, a: T, b: T)
  {
    a != base && b != base && a != b
  }

  /** Both sides restructured the children, not alike, and not by adding alone. */
  predicate IdsClash(base: Node, a: Node, b: Node)
  {
    Apart(ChildIds(base), ChildIds(a), ChildIds(b)) && !BothAdd(base, a, b)
  }

  /** The sides contend for a cell of this node. */
  predicate OwnApart(base: Node, a: Node, b: Node, facet: Facet)
  {
    var shell := Childless(base.kind);
    match facet
    case KindCell => Apart(KindProbe(base), KindProbe(a), KindProbe(b))
    case ToneCell => Apart(base.style.tone, a.style.tone, b.style.tone)
    case WeightCell => Apart(base.style.weight, a.style.weight, b.style.weight)
    case EmphasisCell => Apart(base.style.emphasis, a.style.emphasis, b.style.emphasis)
    case RoleCell => Apart(base.style.role, a.style.role, b.style.role)
    case VoiceCell => Apart(base.style.voice, a.style.voice, b.style.voice)
    case DirectionCell => Apart(base.style.direction, a.style.direction, b.style.direction)
    case StateCell => Apart(StateProbe(shell, base), StateProbe(shell, a), StateProbe(shell, b))
    case AccessibilityCell =>
      Apart(AccessibilityProbe(shell, base), AccessibilityProbe(shell, a), AccessibilityProbe(shell, b))
    case ChildrenCell => IdsClash(base, a, b)
    case InsertCell => false
  }

  ghost predicate Clash(conflicts: seq<Conflict>, id: Id, facet: Facet)
  {
    exists c :: c in conflicts && c.nodeId == id && c.facet == facet
  }

  lemma ClashConcat(xs: seq<Conflict>, ys: seq<Conflict>, id: Id, facet: Facet)
    ensures Clash(xs + ys, id, facet) <==> Clash(xs, id, facet) || Clash(ys, id, facet)
  {
    if Clash(xs, id, facet) {
      var c :| c in xs && c.nodeId == id && c.facet == facet;
      assert c in xs + ys;
    }
    if Clash(ys, id, facet) {
      var c :| c in ys && c.nodeId == id && c.facet == facet;
      assert c in xs + ys;
    }
  }

  /** One cell's conflicts: none, or one naming the cell, as the sides moved apart. */
  ghost predicate OneCell(conflicts: seq<Conflict>, id: Id, facet: Facet, apart: bool)
  {
    if apart then |conflicts| == 1 && conflicts[0].nodeId == id && conflicts[0].facet == facet else conflicts == []
  }

  lemma OneCellClash(conflicts: seq<Conflict>, id: Id, facet: Facet, apart: bool, x: Id, f: Facet)
    requires OneCell(conflicts, id, facet, apart)
    ensures Clash(conflicts, x, f) <==> apart && x == id && f == facet
  {
    if apart { assert conflicts[0] in conflicts; }
  }

  lemma KindCells(enc: Encoder, base: Node, a: Node, b: Node)
    requires Injective(enc)
    ensures OneCell(KindFacet(enc, base, a, b).conflicts, base.id, KindCell, OwnApart(base, a, b, KindCell))
  {
    var x, y, z := KindProbe(base), KindProbe(a), KindProbe(b);
    assert (enc(x) == enc(y) <==> x == y) && (enc(x) == enc(z) <==> x == z) && (enc(y) == enc(z) <==> y == z);
  }

  lemma StateCells(enc: Encoder, base: Node, a: Node, b: Node)
    requires Injective(enc)
    ensures OneCell(StateFacet(enc, base, a, b).conflicts, base.id, StateCell, OwnApart(base, a, b, StateCell))
  {
    var shell := Childless(base.kind);
    var x, y, z := StateProbe(shell, base), StateProbe(shell, a), StateProbe(shell, b);
    assert (enc(x) == enc(y) <==> x == y) && (enc(x) == enc(z) <==> x == z) && (enc(y) == enc(z) <==> y == z);
  }

  lemma AccessibilityCells(enc: Encoder, base: Node, a: Node, b: Node)
    requires Injective(enc)
    ensures OneCell(AccessibilityFacet(enc, base, a, b).conflicts, base.id, AccessibilityCell,
                    OwnApart(base, a, b, AccessibilityCell))
  {
    var shell := Childless(base.kind);
    var x, y, z := AccessibilityProbe(shell, base), AccessibilityProbe(shell, a), AccessibilityProbe(shell, b);
    assert (enc(x) == enc(y) <==> x == y) && (enc(x) == enc(z) <==> x == z) && (enc(y) == enc(z) <==> y == z);
  }

  lemma FieldCells(id: Id, facet: Facet, base: string, a: string, b: string)
    ensures OneCell(PickField(id, facet, base, a, b).conflicts, id, facet, Apart(base, a, b))
  {
  }

  lemma IdsCells(base: Node, a: Node, b: Node)
    ensures OneCell(MergedIds(base, a, b).conflicts, base.id, ChildrenCell, IdsClash(base, a, b))
  {
  }

  predicate StyleFacet(facet: Facet)
  {
    facet in {ToneCell, WeightCell, EmphasisCell, RoleCell, VoiceCell, DirectionCell}
  }

  lemma ThreeCells(id: Id, c: seq<Conflict>, d: seq<Conflict>, e: seq<Conflict>, fc: Facet, fd: Facet, fe: Facet,
                   ac: bool, ad: bool, ae: bool, x: Id, f: Facet)
    requires OneCell(c, id, fc, ac) && OneCell(d, id, fd, ad) && OneCell(e, id, fe, ae)
    ensures Clash(c + d + e, x, f) <==> x == id && ((f == fc && ac) || (f == fd && ad) || (f == fe && ae))
  {
    OneCellClash(c, id, fc, ac, x, f);
    OneCellClash(d, id, fd, ad, x, f);
    OneCellClash(e, id, fe, ae, x, f);
    ClashConcat(c, d, x, f);
    ClashConcat(c + d, e, x, f);
  }

  lemma FirstFields(id: Id, p: Style, q: Style, r: Style, x: Id, f: Facet)
    ensures Clash(PickField(id, ToneCell, p.tone, q.tone, r.tone).conflicts
                  + PickField(id, WeightCell, p.weight, q.weight, r.weight).conflicts
                  + PickField(id, EmphasisCell, p.emphasis, q.emphasis, r.emphasis).conflicts, x, f)
            <==> x == id && ((f == ToneCell && Apart(p.tone, q.tone, r.tone))
                             || (f == WeightCell && Apart(p.weight, q.weight, r.weight))
                             || (f == EmphasisCell && Apart(p.emphasis, q.emphasis, r.emphasis)))
  {
    ThreeCells(id, PickField(id, ToneCell, p.tone, q.tone, r.tone).conflicts,
               PickField(id, WeightCell, p.weight, q.weight, r.weight).conflicts,
               PickField(id, EmphasisCell, p.emphasis, q.emphasis, r.emphasis).conflicts,
               ToneCell, WeightCell, EmphasisCell, Apart(p.tone, q.tone, r.tone),
               Apart(p.weight, q.weight, r.weight), Apart(p.emphasis, q.emphasis, r.emphasis), x, f);
  }

  lemma LastFields(id: Id, p: Style, q: Style, r: Style, x: Id, f: Facet)
    ensures Clash(PickField(id, RoleCell, p.role, q.role, r.role).conflicts
                  + PickField(id, VoiceCell, p.voice, q.voice, r.voice).conflicts
                  + PickField(id, DirectionCell, p.direction, q.direction, r.direction).conflicts, x, f)
            <==> x == id && ((f == RoleCell && Apart(p.role, q.role, r.role))
                             || (f == VoiceCell && Apart(p.voice, q.voice, r.voice))
                             || (f == DirectionCell && Apart(p.direction, q.direction, r.direction)))
  {
    ThreeCells(id, PickField(id, RoleCell, p.role, q.role, r.role).conflicts,
               PickField(id, VoiceCell, p.voice, q.voice, r.voice).conflicts,
               PickField(id, DirectionCell, p.direction, q.direction, r.direction).conflicts,
               RoleCell, VoiceCell, DirectionCell, Apart(p.role, q.role, r.role),
               Apart(p.voice, q.voice, r.voice), Apart(p.direction, q.direction, r.direction), x, f);
  }

  lemma InThrees(t: seq<Conflict>, w: seq<Conflict>, e: seq<Conflict>, r: seq<Conflict>, v: seq<Conflict>,
                 d: seq<Conflict>)
    ensures t + w + e + r + v + d == (t + w + e) + (r + v + d)
  {
  }

  lemma StyleCells(base: Node, a: Node, b: Node, x: Id, f: Facet)
    ensures Clash(MergeStyle(base.id, base.style, a.style, b.style).conflicts, x, f)
            <==> x == base.id && StyleFacet(f) && OwnApart(base, a, b, f)
  {
    var id, p, q, r := base.id, base.style, a.style, b.style;
    var tone := PickField(id, ToneCell, p.tone, q.tone, r.tone).conflicts;
    var weight := PickField(id, WeightCell, p.weight, q.weight, r.weight).conflicts;
    var emphasis := PickField(id, EmphasisCell, p.emphasis, q.emphasis, r.emphasis).conflicts;
    var role := PickField(id, RoleCell, p.role, q.role, r.role).conflicts;
    var voice := PickField(id, VoiceCell, p.voice, q.voice, r.voice).conflicts;
    var direction := PickField(id, DirectionCell, p.direction, q.direction, r.direction).conflicts;
    FirstFields(id, p, q, r, x, f);
    LastFields(id, p, q, r, x, f);
    InThrees(tone, weight, emphasis, role, voice, direction);
    ClashConcat(tone + weight + emphasis, role + voice + direction, x, f);
  }

  /** A node's own conflicts name exactly its cells the sides contend for. */
  lemma OwnCells(enc: Encoder, base: Node, a: Node, b: Node, x: Id, f: Facet)
    requires Injective(enc)
    ensures Clash(OwnConflicts(enc, base, a, b), x, f) <==> x == base.id && OwnApart(base, a, b, f)
  {
    var kind := KindFacet(enc, base, a, b).conflicts;
    var style := MergeStyle(base.id, base.style, a.style, b.style).conflicts;
    var state, acc := StateFacet(enc, base, a, b).conflicts, AccessibilityFacet(enc, base, a, b).conflicts;
    var ids := MergedIds(base, a, b).conflicts;
    ProbeClashes(enc, base, a, b, x, f);
    StyleCells(base, a, b, x, f);
    ClashConcat(kind, style, x, f);
    ClashConcat(kind + style, state, x, f);
    ClashConcat(kind + style + state, acc, x, f);
    ClashConcat(kind + style + state + acc, ids, x, f);
  }

  lemma ProbeClashes(enc: Encoder, base: Node, a: Node, b: Node, x: Id, f: Facet)
    requires Injective(enc)
    ensures Clash(KindFacet(enc, base, a, b).conflicts, x, f)
            <==> x == base.id && f == KindCell && OwnApart(base, a, b, f)
    ensures Clash(StateFacet(enc, base, a, b).conflicts, x, f)
            <==> x == base.id && f == StateCell && OwnApart(base, a, b, f)
    ensures Clash(AccessibilityFacet(enc, base, a, b).conflicts, x, f)
            <==> x == base.id && f == AccessibilityCell && OwnApart(base, a, b, f)
    ensures Clash(MergedIds(base, a, b).conflicts, x, f)
            <==> x == base.id && f == ChildrenCell && OwnApart(base, a, b, f)
  {
    KindCells(enc, base, a, b);
    StateCells(enc, base, a, b);
    AccessibilityCells(enc, base, a, b);
    IdsCells(base, a, b);
    OneCellClash(KindFacet(enc, base, a, b).conflicts, base.id, KindCell, OwnApart(base, a, b, KindCell), x, f);
    OneCellClash(StateFacet(enc, base, a, b).conflicts, base.id, StateCell, OwnApart(base, a, b, StateCell), x, f);
    OneCellClash(AccessibilityFacet(enc, base, a, b).conflicts, base.id, AccessibilityCell,
                 OwnApart(base, a, b, AccessibilityCell), x, f);
    OneCellClash(MergedIds(base, a, b).conflicts, base.id, ChildrenCell, IdsClash(base, a, b), x, f);
  }

  // ----- the cells of the whole merge -----

  /** The sides contend for a cell: of this node, of a kept child the base holds, or of the whole of a child
      both introduce. */
  predicate Contends(base: Node, a: Node, b: Node, x: Id, f: Facet)
    decreases Count(base)
  {
    (x == base.id && OwnApart(base, a, b, f))
    || exists id :: id in MergedIds(base, a, b).value && ChildContends(base, a, b, id, x, f)
  }

  predicate ChildContends(base: Node, a: Node, b: Node, id: Id, x: Id, f: Facet)
    decreases Count(base), 0
  {
    var c, ac, bc := Lookup(Children(base), id), Lookup(Children(a), id), Lookup(Children(b), id);
    if c.Some? then
      LookupChild(base, id);
      Contends(c.value, Or(ac, c.value), Or(bc, c.value), x, f)
    else x == id && f == InsertCell && ac.Some? && bc.Some? && ac != bc
  }

  /** A merge records a conflict for a cell if and only if the sides contend for it. */
  lemma {:induction false} ConflictsExactly(enc: Encoder, base: Node, a: Node, b: Node, x: Id, f: Facet)
    requires Injective(enc)
    ensures Clash(Merge3(enc, base, a, b).conflicts, x, f) <==> Contends(base, a, b, x, f)
    decreases Count(base), 2, 0
  {
    var ids := MergedIds(base, a, b).value;
    OwnCells(enc, base, a, b, x, f);
    ListedContends(enc, base, a, b, ids, x, f);
    ClashConcat(OwnConflicts(enc, base, a, b), MergeListed(enc, base, a, b, ids).conflicts, x, f);
  }

  lemma {:induction false} ListedContends(enc: Encoder, base: Node, a: Node, b: Node, ids: seq<Id>, x: Id, f: Facet)
    requires Injective(enc)
    ensures Clash(MergeListed(enc, base, a, b, ids).conflicts, x, f) <==> SomeContends(base, a, b, ids, x, f)
    decreases Count(base), 1, |ids|
  {
    if ids != [] {
      var front, id := ids[..|ids| - 1], ids[|ids| - 1];
      ListedContends(enc, base, a, b, front, x, f);
      ChildClashes(enc, base, a, b, id, x, f);
      var last := MergeChild(enc, base, a, b, id);
      if last.Some? { ClashConcat(MergeListed(enc, base, a, b, front).conflicts, last.value.conflicts, x, f); }
      SomeContendsLast(base, a, b, ids, x, f);
    }
  }

  ghost predicate SomeContends(base: Node, a: Node, b: Node, ids: seq<Id>, x: Id, f: Facet)
  {
    exists id :: id in ids && ChildContends(base, a, b, id, x, f)
  }

  lemma SomeContendsLast(base: Node, a: Node, b: Node, ids: seq<Id>, x: Id, f: Facet)
    requires ids != []
    ensures SomeContends(base, a, b, ids, x, f)
            <==> SomeContends(base, a, b, ids[..|ids| - 1], x, f) || ChildContends(base, a, b, ids[|ids| - 1], x, f)
  {
    assert forall y :: y in ids <==> y in ids[..|ids| - 1] || y == ids[|ids| - 1];
  }

  lemma {:induction false} ChildClashes(enc: Encoder, base: Node, a: Node, b: Node, id: Id, x: Id, f: Facet)
    requires Injective(enc)
    ensures var m := MergeChild(enc, base, a, b, id);
      (m.Some? && Clash(m.value.conflicts, x, f)) <==> ChildContends(base, a, b, id, x, f)
    decreases Count(base), 0, 0
  {
    var c, ac, bc := Lookup(Children(base), id), Lookup(Children(a), id), Lookup(Children(b), id);
    if c.Some? {
      LookupChild(base, id);
      ConflictsExactly(enc, c.value, Or(ac, c.value), Or(bc, c.value), x, f);
    } else if ac.Some? && bc.Some? {
      var m := MergeChild(enc, base, a, b, id).value;
      assert enc(ac.value) == enc(bc.value) <==> ac.value == bc.value;
      OneCellClash(m.conflicts, id, InsertCell, ac != bc, x, f);
    }
  }

  // ----- when a merge is refused -----

  /** No cell of this node is contended for, none of a kept child the base holds, and a kept child both sides
      introduce is one child. */
  predicate Clean(base: Node, a: Node, b: Node)
    decreases Count(base)
  {
    OwnClean(base, a, b) && forall id :: id in MergedIds(base, a, b).value ==> ChildClean(base, a, b, id)
  }

  predicate ChildClean(base: Node, a: Node, b: Node, id: Id)
    decreases Count(base), 0
  {
    var c, ac, bc := Lookup(Children(base), id), Lookup(Children(a), id), Lookup(Children(b), id);
    if c.Some? then
      LookupChild(base, id);
      Clean(c.value, Or(ac, c.value), Or(bc, c.value))
    else ac.Some? && bc.Some? ==> ac == bc
  }

  predicate OwnClean(base: Node, a: Node, b: Node)
  {
    !OwnApart(base, a, b, KindCell) && !OwnApart(base, a, b, ToneCell) && !OwnApart(base, a, b, WeightCell)
    && !OwnApart(base, a, b, EmphasisCell) && !OwnApart(base, a, b, RoleCell) && !OwnApart(base, a, b, VoiceCell)
    && !OwnApart(base, a, b, DirectionCell) && !OwnApart(base, a, b, StateCell)
    && !OwnApart(base, a, b, AccessibilityCell) && !OwnApart(base, a, b, ChildrenCell)
  }

  lemma OwnCleanExact(enc: Encoder, base: Node, a: Node, b: Node)
    requires Injective(enc)
    ensures OwnConflicts(enc, base, a, b) == [] <==> OwnClean(base, a, b)
  {
    ProbesCleanExact(enc, base, a, b);
    StyleCleanExact(base.id, base.style, a.style, b.style);
    StyleApart(base, a, b);
    OwnEmpty(enc, base, a, b);
  }

  lemma StyleApart(base: Node, a: Node, b: Node)
    ensures var p, q, r := base.style, a.style, b.style;
      (OwnApart(base, a, b, ToneCell) <==> Apart(p.tone, q.tone, r.tone))
      && (OwnApart(base, a, b, WeightCell) <==> Apart(p.weight, q.weight, r.weight))
      && (OwnApart(base, a, b, EmphasisCell) <==> Apart(p.emphasis, q.emphasis, r.emphasis))
      && (OwnApart(base, a, b, RoleCell) <==> Apart(p.role, q.role, r.role))
      && (OwnApart(base, a, b, VoiceCell) <==> Apart(p.voice, q.voice, r.voice))
      && (OwnApart(base, a, b, DirectionCell) <==> Apart(p.direction, q.direction, r.direction))
  {
  }

  lemma ProbesCleanExact(enc: Encoder, base: Node, a: Node, b: Node)
    requires Injective(enc)
    ensures KindFacet(enc, base, a, b).conflicts == [] <==> !OwnApart(base, a, b, KindCell)
    ensures StateFacet(enc, base, a, b).conflicts == [] <==> !OwnApart(base, a, b, StateCell)
    ensures AccessibilityFacet(enc, base, a, b).conflicts == [] <==> !OwnApart(base, a, b, AccessibilityCell)
    ensures MergedIds(base, a, b).conflicts == [] <==> !OwnApart(base, a, b, ChildrenCell)
  {
    KindCells(enc, base, a, b);
    StateCells(enc, base, a, b);
    AccessibilityCells(enc, base, a, b);
    IdsCells(base, a, b);
  }

  lemma OwnEmpty(enc: Encoder, base: Node, a: Node, b: Node)
    ensures OwnConflicts(enc, base, a, b) == []
            <==> KindFacet(enc, base, a, b).conflicts == []
                 && MergeStyle(base.id, base.style, a.style, b.style).conflicts == []
                 && StateFacet(enc, base, a, b).conflicts == [] && AccessibilityFacet(enc, base, a, b).conflicts == []
                 && MergedIds(base, a, b).conflicts == []
  {
    AllEmpty(KindFacet(enc, base, a, b).conflicts, MergeStyle(base.id, base.style, a.style, b.style).conflicts,
             StateFacet(enc, base, a, b).conflicts, AccessibilityFacet(enc, base, a, b).conflicts,
             MergedIds(base, a, b).conflicts);
  }

  lemma AllEmpty(k: seq<Conflict>, s: seq<Conflict>, t: seq<Conflict>, c: seq<Conflict>, i: seq<Conflict>)
    ensures k + s + t + c + i == [] <==> k == [] && s == [] && t == [] && c == [] && i == []
  {
  }

  lemma StyleCleanExact(id: Id, p: Style, q: Style, r: Style)
    ensures MergeStyle(id, p, q, r).conflicts == []
            <==> !Apart(p.tone, q.tone, r.tone) && !Apart(p.weight, q.weight, r.weight)
                 && !Apart(p.emphasis, q.emphasis, r.emphasis) && !Apart(p.role, q.role, r.role)
                 && !Apart(p.voice, q.voice, r.voice) && !Apart(p.direction, q.direction, r.direction)
  {
    FieldCells(id, ToneCell, p.tone, q.tone, r.tone);
    FieldCells(id, WeightCell, p.weight, q.weight, r.weight);
    FieldCells(id, EmphasisCell, p.emphasis, q.emphasis, r.emphasis);
    FieldCells(id, RoleCell, p.role, q.role, r.role);
    FieldCells(id, VoiceCell, p.voice, q.voice, r.voice);
    FieldCells(id, DirectionCell, p.direction, q.direction, r.direction);
  }

  /** A merge records no conflict if and only if its inputs are clean. */
  lemma {:induction false} CleanExact(enc: Encoder, base: Node, a: Node, b: Node)
    requires Injective(enc)
    ensures Merge3(enc, base, a, b).conflicts == [] <==> Clean(base, a, b)
    decreases Count(base), 2, 0
  {
    OwnCleanExact(enc, base, a, b);
    ListClean(enc, base, a, b, MergedIds(base, a, b).value);
  }

  lemma {:induction false} ListClean(enc: Encoder, base: Node, a: Node, b: Node, ids: seq<Id>)
    requires Injective(enc)
    ensures MergeListed(enc, base, a, b, ids).conflicts == [] <==> AllClean(base, a, b, ids)
    decreases Count(base), 1, |ids|
  {
    if ids != [] {
      var front, id := ids[..|ids| - 1], ids[|ids| - 1];
      ListClean(enc, base, a, b, front);
      ChildCleanExact(enc, base, a, b, id);
      AllCleanLast(base, a, b, ids);
    }
  }

  ghost predicate AllClean(base: Node, a: Node, b: Node, ids: seq<Id>)
  {
    forall id :: id in ids ==> ChildClean(base, a, b, id)
  }

  lemma AllCleanLast(base: Node, a: Node, b: Node, ids: seq<Id>)
    requires ids != []
    ensures AllClean(base, a, b, ids)
            <==> AllClean(base, a, b, ids[..|ids| - 1]) && ChildClean(base, a, b, ids[|ids| - 1])
  {
    assert forall y :: y in ids <==> y in ids[..|ids| - 1] || y == ids[|ids| - 1];
  }

  lemma {:induction false} ChildCleanExact(enc: Encoder, base: Node, a: Node, b: Node, id: Id)
    requires Injective(enc)
    ensures var m := MergeChild(enc, base, a, b, id);
      (m.Some? ==> m.value.conflicts == []) <==> ChildClean(base, a, b, id)
    decreases Count(base), 0, 0
  {
    var c, ac, bc := Lookup(Children(base), id), Lookup(Children(a), id), Lookup(Children(b), id);
    if c.Some? {
      LookupChild(base, id);
      CleanExact(enc, c.value, Or(ac, c.value), Or(bc, c.value));
    } else if ac.Some? && bc.Some? {
      assert enc(ac.value) == enc(bc.value) <==> ac.value == bc.value;
    }
  }

  /** A merge is answered, and not refused, if and only if its inputs are clean. */
  lemma MergedExactly(enc: Encoder, base: Node, a: Node, b: Node)
    requires Injective(enc)
    ensures Merge3Way(enc, base, a, b).Merged? <==> Clean(base, a, b)
  {
    CleanExact(enc, base, a, b);
  }

  // ----- the other order -----

  /** Merging in the other order gives the transposed result if and only if the inputs are not clean, and so
      are refused in both orders, or no node the merge keeps has a side that, while both add children, adds
      two of one id. */
  lemma MergeSymmetricExactly(enc: Encoder, base: Node, a: Node, b: Node)
    requires Injective(enc)
    ensures Merge3Way(enc, base, b, a) == TransposeResult(Merge3Way(enc, base, a, b))
            <==> !Clean(base, a, b) || Commutes(base, a, b)
  {
    MergedExactly(enc, base, a, b);
    ConflictsTranspose(enc, base, a, b);
    ValuesCommute(enc, base, a, b);
  }

  // ----- where repeated sibling ids break it -----

  /** One branch inserts two children of one id, the other a child of another id: both orders merge
      without conflict, and they merge to different trees. */
  lemma RepeatedSiblingAsymmetric(enc: Encoder, base: Node, x: Node, y: Node)
    requires Injective(enc) && base.kind.Layout? && base.kind.children == [] && x.id != y.id
    ensures var a, b := WithLayoutChildren(base, [x, x]), WithLayoutChildren(base, [y]);
      Merge3Way(enc, base, a, b).Merged? && Merge3Way(enc, base, b, a).Merged?
      && Merge3Way(enc, base, b, a) != TransposeResult(Merge3Way(enc, base, a, b))
  {
    var a, b := WithLayoutChildren(base, [x, x]), WithLayoutChildren(base, [y]);
    var xs, ys := [x.id, x.id], [y.id];
    assert ChildIds(base) == [] && ChildIds(a) == xs && ChildIds(b) == ys;
    NewIds(x.id, y.id);
    assert BothAdd(base, a, b) && !IdsCommute(base, a, b) by { assert xs[0] == xs[1]; }
    assert KindProbe(a) == KindProbe(base) == KindProbe(b);
    OnlyInserted(enc, base, a, b);
    OrderTells(enc, base, a, b);
  }

  lemma OrderTells(enc: Encoder, base: Node, a: Node, b: Node)
    requires Injective(enc) && Merge3Way(enc, base, a, b).Merged?
    requires PickedKind(base, a, b).Layout? && !IdsCommute(base, a, b)
    ensures Merge3Way(enc, base, b, a) != TransposeResult(Merge3Way(enc, base, a, b))
  {
    MergedExactly(enc, base, a, b);
    MergeSymmetricExactly(enc, base, a, b);
  }

  lemma OnlyInserted(enc: Encoder, base: Node, a: Node, b: Node)
    requires Injective(enc) && BothAdd(base, a, b) && ChildIds(base) == []
    requires KindProbe(a) == KindProbe(base) == KindProbe(b) && a.style == base.style == b.style
    requires a.state == base.state == b.state && a.accessibility == base.accessibility == b.accessibility
    ensures Merge3Way(enc, base, a, b).Merged? && Merge3Way(enc, base, b, a).Merged?
  {
    InsertedQuietly(enc, base, a, b);
    ConflictsTranspose(enc, base, a, b);
    assert a.id == base.id == b.id;
  }

  lemma NewIds(x: Id, y: Id)
    requires x != y
    ensures var xs, ys := [x, x], [y];
      Filter(xs, [], false) == xs && Filter(ys, [], false) == ys && Filter(ys, xs, true) == []
      && Filter(xs, [], true) == [] == Filter(ys, [], true)
  {
    var xs, ys := [x, x], [y];
    assert xs[1..] == [x] && [x][1..] == [] && ys[1..] == [];
    FilterFacts(ys, xs, true);
    EmptyIfNoMember(Filter(ys, xs, true));
    assert Filter([x], [], false) == [x] && Filter([x], [], true) == [];
  }
}
