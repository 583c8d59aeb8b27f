/** The structural diff: the op script that turns one tree into another. */
module TreeDiff {
  import opened Trees
  import opened TreeOps

  /** Where a matched node sits: the root, or a position among a layout parent's children. */
  datatype Seat = Root | At(parentId: Id, position: nat, siblings: seq<Id>)

  /** `a` given `b`'s style and traits. */
  function Faceted(a: Node, b: Node): Node
  {
    a.(style := b.style, accessibility := b.accessibility, tooltip := b.tooltip)
  }

  function Stripped(n: Node): Node
  {
    if n.kind.Layout? then WithLayoutChildren(n, []) else n
  }

  predicate OwnContentSame(a: Node, b: Node)
  {
    Stripped(a) == Stripped(b)
  }

  function Moved(before: string, after: string): Option<string>
  {
    if before != after then Some(after) else None
  }

  function StyleMoves(before: Style, after: Style): StyleDelta
  {
    StyleDelta(Moved(before.direction, after.direction), Moved(before.emphasis, after.emphasis),
               Moved(before.role, after.role), Moved(before.tone, after.tone),
               Moved(before.voice, after.voice), Moved(before.weight, after.weight))
  }

  predicate Total(d: StyleDelta)
  {
    d.direction.Some? && d.emphasis.Some? && d.role.Some? && d.tone.Some? && d.voice.Some? && d.weight.Some?
  }

  const NO_MOVES := StyleDelta(None, None, None, None, None, None)

  /** The style op taking `before` to `after`: none, a patch of the moved fields, or the whole record. */
  function StyleEdit(target: Id, before: Style, after: Style): seq<TreeOp>
  {
    var delta := StyleMoves(before, after);
    if delta == NO_MOVES then []
    else if Total(delta) then [UpdateStyle(target, after)]
    else [PatchStyle(target, delta)]
  }

  function OrDefault(a: Option<Accessibility>): Accessibility
  {
    if a.Some? then a.value else DEFAULT_ACCESSIBILITY
  }

  function TraitEdits(a: Node, b: Node): seq<TreeOp>
  {
    (if OrDefault(a.accessibility) != OrDefault(b.accessibility)
     then [UpdateAccessibility(b.id, OrDefault(b.accessibility))] else [])
    + (if a.tooltip != b.tooltip then [UpdateTooltip(b.id, b.tooltip)] else [])
  }

  function FacetEdits(a: Node, b: Node): seq<TreeOp>
  {
    StyleEdit(a.id, a.style, b.style) + TraitEdits(a, b)
  }

  /** A matched pair of layout nodes whose own content and child ids agree is recursed into. */
  predicate Recurses(a: Node, b: Node)
  {
    a.kind.Layout? && b.kind.Layout? && OwnContentSame(Faceted(a, b), b)
    && IdSeq(a.kind.children) == IdSeq(b.kind.children)
  }

  /** Remove the old node and insert the new one, which lands last, then restate the order. */
  function Replacement(a: Node, b: Node, seat: Seat): seq<TreeOp>
  {
    match seat
    case Root => [ReplaceRoot(b)]
    case At(parentId, position, siblings) =>
      [RemoveNode(a.id), InsertChild(parentId, b)]
      + (if position + 1 != |siblings| then [ReorderChildren(parentId, siblings)] else [])
  }

  function DiffNode(a: Node, b: Node, seat: Seat): seq<TreeOp>
    decreases Count(a), 1, 0
  {
    if a == b then []
    else if Faceted(a, b) == b then FacetEdits(a, b)
    else if Recurses(a, b) then FacetEdits(a, b) + DiffChildren(a, b, 0)
    else Replacement(a, b, seat)
  }

  /** The children's scripts from position `i` on. */
  function DiffChildren(a: Node, b: Node, i: nat): seq<TreeOp>
    requires Recurses(a, b) && i <= |a.kind.children|
    decreases Count(a), 0, |a.kind.children| - i
  {
    assert |IdSeq(a.kind.children)| == |a.kind.children| && |IdSeq(b.kind.children)| == |b.kind.children|;
    if i == |a.kind.children| then []
    else
      ChildIsSmaller(a, i);
      DiffNode(a.kind.children[i], b.kind.children[i], At(a.id, i, IdSeq(b.kind.children)))
      + DiffChildren(a, b, i + 1)
  }

  lemma ChildIsSmaller(a: Node, i: nat)
    requires a.kind.Layout? && i < |a.kind.children|
    ensures Count(a.kind.children[i]) < Count(a)
  {
    CountAllAt(a.kind.children, i);
  }

  function DiffOf(before: Node, after: Node): seq<TreeOp>
  {
    if before.id != after.id then [ReplaceRoot(after)] else DiffNode(before, after, Root)
  }

  // ----- the diff as the crate runs it: ops pushed onto one growing script -----

  class Script {
    var ops: seq<TreeOp>

    constructor ()
      ensures ops == []
    {
      ops := [];
    }

    method Extend(more: seq<TreeOp>)
      modifies this
      ensures ops == old(ops) + more
    {
      ops := ops + more;
    }
  }

  lemma Regroup(x: seq<TreeOp>, y: seq<TreeOp>, z: seq<TreeOp>)
    ensures x + y + z == x + (y + z)
  {
  }

  lemma ChildrenStep(a: Node, b: Node, i: nat, done: seq<TreeOp>)
    requires Recurses(a, b) && i < |a.kind.children|
    ensures |a.kind.children| == |b.kind.children|
    ensures done + DiffChildren(a, b, i)
         == done + DiffNode(a.kind.children[i], b.kind.children[i],
             At(a.id, i, IdSeq(b.kind.children))) + DiffChildren(a, b, i + 1)
  {
    assert |IdSeq(a.kind.children)| == |a.kind.children| && |IdSeq(b.kind.children)| == |b.kind.children|;
    ChildIsSmaller(a, i);
    Regroup(done, DiffNode(a.kind.children[i], b.kind.children[i], At(a.id, i, IdSeq(b.kind.children))),
        DiffChildren(a, b, i + 1));
  }

  method PushDiff(a: Node, b: Node, seat: Seat, script: Script)
    modifies script
    ensures script.ops == old(script.ops) + DiffNode(a, b, seat)
    decreases Count(a)
  {
    if a == b {
      return;
    }
    if Faceted(a, b) == b {
      script.Extend(FacetEdits(a, b));
      return;
    }
    if Recurses(a, b) {
      script.Extend(FacetEdits(a, b));
      var ak, bk := a.kind.children, b.kind.children;
      assert |IdSeq(ak)| == |ak| && |IdSeq(bk)| == |bk|;
      ghost var whole := script.ops + DiffChildren(a, b, 0);
      Regroup(old(script.ops), FacetEdits(a, b), DiffChildren(a, b, 0));
      for i := 0 to |ak|
        invariant script.ops + DiffChildren(a, b, i) == whole
      {
        ChildIsSmaller(a, i);
        ghost var done := script.ops;
        PushDiff(ak[i], bk[i], At(a.id, i, IdSeq(bk)), script);
        ChildrenStep(a, b, i, done);
      }
      assert script.ops + [] == script.ops;
    } else {
      script.Extend(Replacement(a, b, seat));
    }
  }

  method DiffScript(before: Node, after: Node) returns (ops: seq<TreeOp>)
    ensures ops == DiffOf(before, after)
  {
    var script := new Script();
    if before.id != after.id {
      script.Extend([ReplaceRoot(after)]);
    } else {
      PushDiff(before, after, Root, script);
    }
    ops := script.ops;
  }
}
