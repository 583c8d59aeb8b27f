/** The facet 3-way merge: each facet of a node merged on its own, with two-sided conflicts. */
module Merge {
  import opened Trees
  import opened TreeOps
  import Ordinal

  datatype ConflictClass =
    | ConcurrentEdit | ConcurrentMove | DeleteModify | KindSwapOrphansPin | ReorderVsStructural | CombinedCycle

  /** The facets a node decomposes into, and the cell a doubly introduced child contends for. */
  datatype Facet =
    | KindCell | ToneCell | WeightCell | EmphasisCell | RoleCell | VoiceCell | DirectionCell
    | StateCell | AccessibilityCell | ChildrenCell | InsertCell

  datatype Side = Side(value: string, tag: Option<string>)

  /** A cell that could not be merged: both sides' values, and the precedence view this entry never fills. */
  datatype Conflict = Conflict(nodeId: Id, facet: Facet, conflictClass: ConflictClass, base: string,
                               a: Option<Side>, b: Option<Side>, primary: Option<string>,
                               secondary: Option<string>, secondaryTag: Option<string>, primacyHeld: bool)

  /** A value and the conflicts recorded on the way to it. */
  datatype Outcome<+T> = Outcome(value: T, conflicts: seq<Conflict>)

  datatype MergeResult = Merged(tree: Node) | Conflicts(conflicts: seq<Conflict>)

  /** The canonical encoder, of which the merge uses only that it is injective. */
  type Encoder = Node -> string

  ghost predicate Injective(enc: Encoder)
  {
    forall m, n :: enc(m) == enc(n) ==> m == n
  }

  function TwoSided(nodeId: Id, facet: Facet, conflictClass: ConflictClass, base: string, a: string,
                    b: string): Conflict
  {
    Conflict(nodeId, facet, conflictClass, base, Some(Side(a, None)), Some(Side(b, None)), None, None, None, false)
  }

  // ----- facets -----

  function Children(n: Node): seq<Node>
  {
    if n.kind.Layout? then n.kind.children else []
  }

  function WithChildren(kind: Kind, children: seq<Node>): Kind
  {
    if kind.Layout? then Layout(kind.tag, kind.own, children) else kind
  }

  function Childless(kind: Kind): Kind
  {
    WithChildren(kind, [])
  }

  function MkNode(id: Id, kind: Kind, style: Style, state: State, accessibility: Option<Accessibility>): Node
  {
    Node(id, kind, state, style, accessibility, None, None, None)
  }

  function KindProbe(n: Node): Node
  {
    MkNode(n.id, Childless(n.kind), DEFAULT_STYLE, DEFAULT_STATE, None)
  }

  function StateProbe(shell: Kind, n: Node): Node
  {
    MkNode(n.id, shell, DEFAULT_STYLE, n.state, None)
  }

  function AccessibilityProbe(shell: Kind, n: Node): Node
  {
    MkNode(n.id, shell, DEFAULT_STYLE, DEFAULT_STATE, n.accessibility)
  }

  /** Pick one style sub-field, recording a conflict where both sides moved it apart. */
  function PickField(nodeId: Id, facet: Facet, base: string, a: string, b: string): Outcome<string>
  {
    if a != base && b != base && a != b then
      Outcome(base, [TwoSided(nodeId, facet, ConcurrentEdit, base, a, b)])
    else Outcome(if a != base then a else if b != base then b else base, [])
  }

  datatype Source = FromBase | FromA | FromB

  /** Pick the side a canonically compared facet comes from. */
  function PickCanonical(nodeId: Id, facet: Facet, base: string, a: string, b: string): Outcome<Source>
  {
    if a != base && b != base && a != b then
      Outcome(FromBase, [TwoSided(nodeId, facet, ConcurrentEdit, base, a, b)])
    else Outcome(if a != base then FromA else if b != base then FromB else FromBase, [])
  }

  function Sourced<T>(source: Source, base: T, a: T, b: T): T
  {
    match source
    case FromBase => base
    case FromA => a
    case FromB => b
  }

  function MergeStyle(id: Id, base: Style, a: Style, b: Style): Outcome<Style>
  {
    var tone := PickField(id, ToneCell, base.tone, a.tone, b.tone);
    var weight := PickField(id, WeightCell, base.weight, a.weight, b.weight);
    var emphasis := PickField(id, EmphasisCell, base.emphasis, a.emphasis, b.emphasis);
    var role := PickField(id, RoleCell, base.role, a.role, b.role);
    var voice := PickField(id, VoiceCell, base.voice, a.voice, b.voice);
    var direction := PickField(id, DirectionCell, base.direction, a.direction, b.direction);
    Outcome(Style(direction.value, emphasis.value, role.value, tone.value, voice.value, weight.value),
            tone.conflicts + weight.conflicts + emphasis.conflicts + role.conflicts + voice.conflicts
            + direction.conflicts)
  }

  function KindFacet(enc: Encoder, base: Node, a: Node, b: Node): Outcome<Kind>
  {
    var pick := PickCanonical(base.id, KindCell, enc(KindProbe(base)), enc(KindProbe(a)), enc(KindProbe(b)));
    Outcome(Childless(Sourced(pick.value, base, a, b).kind), pick.conflicts)
  }

  function StateFacet(enc: Encoder, base: Node, a: Node, b: Node): Outcome<State>
  {
    var shell := Childless(base.kind);
    var pick := PickCanonical(base.id, StateCell, enc(StateProbe(shell, base)), enc(StateProbe(shell, a)),
      enc(StateProbe(shell, b)));
    Outcome(Sourced(pick.value, base, a, b).state, pick.conflicts)
  }

  function AccessibilityFacet(enc: Encoder, base: Node, a: Node, b: Node): Outcome<Option<Accessibility>>
  {
    var shell := Childless(base.kind);
    var pick := PickCanonical(base.id, AccessibilityCell, enc(AccessibilityProbe(shell, base)),
                              enc(AccessibilityProbe(shell, a)), enc(AccessibilityProbe(shell, b)));
    Outcome(Sourced(pick.value, base, a, b).accessibility, pick.conflicts)
  }

  // ----- the children facet -----

  function ChildIds(n: Node): seq<Id>
  {
    IdSeq(Children(n))
  }

  /** Children by id; of two with one id the later is held. */
  function ChildMap(ns: seq<Node>): (m: map<Id, Node>)
    ensures forall id :: id in m ==> m[id] in ns && m[id].id == id
    ensures forall id :: id in m <==> id in IdSeq(ns)
  {
    if ns == [] then map[]
    else
      var front, last := ns[..|ns| - 1], ns[|ns| - 1];
      assert IdSeq(ns) == IdSeq(front) + [last.id];
      ChildMap(front)[last.id := last]
  }

  function Lookup(ns: seq<Node>, id: Id): Option<Node>
  {
    if id in ChildMap(ns) then Some(ChildMap(ns)[id]) else None
  }

  function Or(o: Option<Node>, n: Node): Node
  {
    if o.Some? then o.value else n
  }

  /** The ids of `ids` that are (or, for `inside` false, are not) in `other`. */
  function Filter(ids: seq<Id>, other: seq<Id>, inside: bool): seq<Id>
  {
    if ids == [] then []
    else if (ids[0] in other) == inside then [ids[0]] + Filter(ids[1..], other, inside)
    else Filter(ids[1..], other, inside)
  }

  /** `head` is `base` with zero removals and zero reorders. */
  predicate IsPureAddition(base: seq<Id>, head: seq<Id>)
  {
    Filter(base, head, true) == base && Filter(head, base, true) == base
  }

  /** `a` followed by each id of `b` not yet listed. */
  function Adjoin(a: seq<Id>, b: seq<Id>): seq<Id>
    decreases b
  {
    if b == [] then a
    else if b[0] in a then Adjoin(a, b[1..])
    else Adjoin(a + [b[0]], b[1..])
  }

  function Join(ids: seq<Id>): string
  {
    if ids == [] then "" else if |ids| == 1 then ids[0] else ids[0] + "," + Join(ids[1..])
  }

  /** The children ids the merge keeps, and the conflict where both sides restructured apart. */
  function MergedIds(base: Node, a: Node, b: Node): Outcome<seq<Id>>
  {
    var baseIds, aIds, bIds := ChildIds(base), ChildIds(a), ChildIds(b);
    if aIds == baseIds && bIds == baseIds then Outcome(baseIds, [])
    else if bIds == baseIds then Outcome(aIds, [])
    else if aIds == baseIds then Outcome(bIds, [])
    else if aIds == bIds then Outcome(aIds, [])
    else
      var aNew, bNew := Filter(aIds, baseIds, false), Filter(bIds, baseIds, false);
      if IsPureAddition(baseIds, aIds) && IsPureAddition(baseIds, bIds) && Filter(bNew, aNew, true) == []
      then Outcome(baseIds + Ordinal.Sort(Adjoin(aNew, bNew)), [])
      else Outcome(baseIds,
        [TwoSided(base.id, ChildrenCell, ReorderVsStructural, Join(baseIds), Join(aIds), Join(bIds))])
  }

  lemma LookupChild(n: Node, id: Id)
    requires Lookup(Children(n), id).Some?
    ensures var c := Lookup(Children(n), id).value; c in Children(n) && c.id == id && Count(c) < Count(n)
  {
    var c := Lookup(Children(n), id).value;
    var i :| 0 <= i < |Children(n)| && Children(n)[i] == c;
    CountAllAt(n.kind.children, i);
  }

  /** Merge the children under one id; `None` for an id none of the three holds. */
  function MergeChild(enc: Encoder, base: Node, a: Node, b: Node, id: Id): Option<Outcome<Node>>
    decreases Count(base), 0, 0
  {
    var c, ac, bc := Lookup(Children(base), id), Lookup(Children(a), id), Lookup(Children(b), id);
    if c.Some? then
      LookupChild(base, id);
      Some(Merge3(enc, c.value, Or(ac, c.value), Or(bc, c.value)))
    else if ac.Some? && bc.Some? then
      var av, bv := enc(ac.value), enc(bc.value);
      if av == bv then Some(Outcome(ac.value, []))
      else Some(Outcome(if Ordinal.Leq(av, bv) then ac.value else bc.value,
                        [TwoSided(id, InsertCell, ConcurrentEdit, "", av, bv)]))
    else if ac.Some? then Some(Outcome(ac.value, []))
    else if bc.Some? then Some(Outcome(bc.value, []))
    else None
  }

  /** The merged children of the listed ids, in order, skipping an id none holds. */
  function MergeListed(enc: Encoder, base: Node, a: Node, b: Node, ids: seq<Id>): Outcome<seq<Node>>
    decreases Count(base), 1, |ids|
  {
    if ids == [] then Outcome([], [])
    else
      var front := MergeListed(enc, base, a, b, ids[..|ids| - 1]);
      var last := MergeChild(enc, base, a, b, ids[|ids| - 1]);
      if last.None? then front
      else Outcome(front.value + [last.value.value], front.conflicts + last.value.conflicts)
  }

  /** The conflicts of a node's own facets, in the order they are recorded. */
  function OwnConflicts(enc: Encoder, base: Node, a: Node, b: Node): seq<Conflict>
  {
    KindFacet(enc, base, a, b).conflicts + MergeStyle(base.id, base.style, a.style, b.style).conflicts
    + StateFacet(enc, base, a, b).conflicts + AccessibilityFacet(enc, base, a, b).conflicts
    + MergedIds(base, a, b).conflicts
  }

  /** The merge of three versions of one node, with the conflicts in recording order. */
  function Merge3(enc: Encoder, base: Node, a: Node, b: Node): Outcome<Node>
    decreases Count(base), 2, 0
  {
    var children := MergeListed(enc, base, a, b, MergedIds(base, a, b).value);
    Outcome(MkNode(base.id, WithChildren(KindFacet(enc, base, a, b).value, children.value),
                   MergeStyle(base.id, base.style, a.style, b.style).value,
                   StateFacet(enc, base, a, b).value, AccessibilityFacet(enc, base, a, b).value),
            OwnConflicts(enc, base, a, b) + children.conflicts)
  }

  function Merge3Way(enc: Encoder, base: Node, a: Node, b: Node): MergeResult
  {
    var m := Merge3(enc, base, a, b);
    if m.conflicts == [] then Merged(m.value) else Conflicts(m.conflicts)
  }

  // ----- the merge as the crate runs it: one conflict list threaded through the recursion -----

  class ConflictLog {
    var conflicts: seq<Conflict>

    constructor ()
      ensures conflicts == []
    {
      conflicts := [];
    }

    method Record(more: seq<Conflict>)
      modifies this
      ensures conflicts == old(conflicts) + more
    {
      conflicts := conflicts + more;
    }
  }

  method MergeInto(log: ConflictLog, enc: Encoder, base: Node, a: Node, b: Node) returns (n: Node)
    modifies log
    ensures n == Merge3(enc, base, a, b).value
    ensures log.conflicts == old(log.conflicts) + Merge3(enc, base, a, b).conflicts
    decreases Count(base), 2
  {
    ghost var o := log.conflicts;
    var shell, ids := MergeOwnInto(log, enc, base, a, b);
    var children := MergeListedInto(log, enc, base, a, b, ids);
    n := shell.(kind := WithChildren(shell.kind, children));
    MergeParts(enc, base, a, b, shell, ids);
    Reassociate(o, OwnConflicts(enc, base, a, b), MergeListed(enc, base, a, b, ids).conflicts);
  }

  /** The merge is its shell filled with its listed children, and its conflicts those of the two. */
  lemma MergeParts(enc: Encoder, base: Node, a: Node, b: Node, shell: Node, ids: seq<Id>)
    requires shell == MkNode(base.id, KindFacet(enc, base, a, b).value,
                             MergeStyle(base.id, base.style, a.style, b.style).value,
                             StateFacet(enc, base, a, b).value, AccessibilityFacet(enc, base, a, b).value)
    requires ids == MergedIds(base, a, b).value
    ensures var m, listed := Merge3(enc, base, a, b), MergeListed(enc, base, a, b, ids);
      m.value == shell.(kind := WithChildren(shell.kind, listed.value))
      && m.conflicts == OwnConflicts(enc, base, a, b) + listed.conflicts
  {
  }

  /** The node's own facets: its merged shell, without children, and the child ids to keep. */
  method MergeOwnInto(log: ConflictLog, enc: Encoder, base: Node, a: Node, b: Node) returns (shell: Node, ids: seq<Id>)
    modifies log
    ensures shell == MkNode(base.id, KindFacet(enc, base, a, b).value,
                            MergeStyle(base.id, base.style, a.style, b.style).value,
                            StateFacet(enc, base, a, b).value, AccessibilityFacet(enc, base, a, b).value)
    ensures ids == MergedIds(base, a, b).value
    ensures log.conflicts == old(log.conflicts) + OwnConflicts(enc, base, a, b)
  {
    var kind := KindFacet(enc, base, a, b);
    log.Record(kind.conflicts);
    var style := MergeStyle(base.id, base.style, a.style, b.style);
    log.Record(style.conflicts);
    var state := StateFacet(enc, base, a, b);
    log.Record(state.conflicts);
    var accessibility := AccessibilityFacet(enc, base, a, b);
    log.Record(accessibility.conflicts);
    var kept := MergedIds(base, a, b);
    log.Record(kept.conflicts);
    shell := MkNode(base.id, kind.value, style.value, state.value, accessibility.value);
    ids := kept.value;
    Regroup(old(log.conflicts), kind.conflicts, style.conflicts, state.conflicts, accessibility.conflicts,
        kept.conflicts);
  }

  lemma Regroup(o: seq<Conflict>, k: seq<Conflict>, s: seq<Conflict>, t: seq<Conflict>, c: seq<Conflict>,
                i: seq<Conflict>)
    ensures o + k + s + t + c + i == o + (k + s + t + c + i)
  {
  }

  lemma ListedStep(enc: Encoder, base: Node, a: Node, b: Node, ids: seq<Id>, i: nat)
    requires i < |ids|
    ensures var front, last := MergeListed(enc, base, a, b, ids[..i]), MergeChild(enc, base, a, b, ids[i]);
      MergeListed(enc, base, a, b, ids[..i + 1]) ==
        (if last.None? then front
         else Outcome(front.value + [last.value.value], front.conflicts + last.value.conflicts))
  {
    assert ids[..i + 1][..i] == ids[..i] && ids[..i + 1][i] == ids[i];
  }

  method MergeListedInto(log: ConflictLog, enc: Encoder, base: Node, a: Node, b: Node, ids: seq<Id>)
    returns (children: seq<Node>)
    modifies log
    ensures children == MergeListed(enc, base, a, b, ids).value
    ensures log.conflicts == old(log.conflicts) + MergeListed(enc, base, a, b, ids).conflicts
    decreases Count(base), 1
  {
    children := [];
    ghost var o := log.conflicts;
    for i := 0 to |ids|
      invariant children == MergeListed(enc, base, a, b, ids[..i]).value
      invariant log.conflicts == o + MergeListed(enc, base, a, b, ids[..i]).conflicts
    {
      ghost var front, last := MergeListed(enc, base, a, b, ids[..i]), MergeChild(enc, base, a, b, ids[i]);
      ListedStep(enc, base, a, b, ids, i);
      var child := MergeChildInto(log, enc, base, a, b, ids[i]);
      if child.Some? {
        children := children + [child.value];
        Reassociate(o, front.conflicts, last.value.conflicts);
      }
    }
    assert ids[..|ids|] == ids;
  }

  lemma Reassociate(o: seq<Conflict>, x: seq<Conflict>, y: seq<Conflict>)
    ensures o + x + y == o + (x + y)
  {
  }

  method MergeChildInto(log: ConflictLog, enc: Encoder, base: Node, a: Node, b: Node, id: Id) returns (n: Option<Node>)
    modifies log
    ensures var m := MergeChild(enc, base, a, b, id);
      if m.None? then n.None? && log.conflicts == old(log.conflicts)
      else n == Some(m.value.value) && log.conflicts == old(log.conflicts) + m.value.conflicts
    decreases Count(base), 0
  {
    var c, ac, bc := Lookup(Children(base), id), Lookup(Children(a), id), Lookup(Children(b), id);
    if c.Some? {
      LookupChild(base, id);
      var merged := MergeInto(log, enc, c.value, Or(ac, c.value), Or(bc, c.value));
      return Some(merged);
    }
    if ac.Some? && bc.Some? {
      var av, bv := enc(ac.value), enc(bc.value);
      if av == bv {
        return ac;
      }
      log.Record([TwoSided(id, InsertCell, ConcurrentEdit, "", av, bv)]);
      return if Ordinal.Leq(av, bv) then ac else bc;
    }
    n := if ac.Some? then ac else bc;
  }

  method MergeTrees(enc: Encoder, base: Node, a: Node, b: Node) returns (r: MergeResult)
    ensures r == Merge3Way(enc, base, a, b)
  {
    var log := new ConflictLog();
    var merged := MergeInto(log, enc, base, a, b);
    r := if log.conflicts == [] then Merged(merged) else Conflicts(log.conflicts);
  }
}
