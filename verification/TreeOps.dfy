/** The tree-op apply engine: one op reduced against a tree, with the guards on its result. */
module TreeOps {
  import opened Trees
  import Ordinal

  datatype Code =
    | NodeNotFound | ParentNotFound | ChildlessKind | PositionOutOfRange | DuplicateNodeId
    | FieldNotFound | SlotNotFound | KindMismatch | PathInvalid | PathNotSupportedYet
    | OrderingMismatch | BatchAborted | LimitExceeded

  datatype ApplyError = ApplyError(code: Code, batchIndex: Option<nat>)

  datatype Result<+T> = Ok(value: T) | Err(error: ApplyError)

  datatype StyleDelta = StyleDelta(direction: Option<string>, emphasis: Option<string>, role: Option<string>,
                                   tone: Option<string>, voice: Option<string>, weight: Option<string>)

  datatype TreeOp =
    | EditNode(target: Id, newKind: Kind)
    | UpdateProp(target: Id, path: string, value: string)
    | ReplaceBinding(target: Id, slot: string, binding: string)
    | UpdateStyle(target: Id, style: Style)
    | PatchStyle(target: Id, delta: StyleDelta)
    | UpdateAccessibility(target: Id, accessibility: Accessibility)
    | UpdateTooltip(target: Id, tooltip: Option<string>)
    | UpdateState(target: Id, state: State)
    | InsertChild(parentId: Id, child: Node)
    | RemoveNode(target: Id)
    | MoveNode(target: Id, newParentId: Id)
    | ReorderChildren(parentId: Id, newOrder: seq<Id>)
    | ReplaceRoot(node: Node)
    | Batch(ops: seq<TreeOp>)

  /** The per-kind field tables, which rewrite a kind's own fields and never its sub-nodes:
      whether a path parses, what a path and value make of the fields, and what a binding slot does. */
  datatype FieldTables = FieldTables(
    pathValid: string -> bool,
    updateField: (string, string, string, string) -> Result<string>,
    replaceBinding: (string, string, string, string) -> Option<string>)

  const MAX_NODE_DEPTH: nat := 24
  const MAX_NODES: nat := 100000

  function Fail<T>(code: Code): Result<T>
  {
    Err(ApplyError(code, None))
  }

  // ----- walkers the structural ops use -----

  function WithLayoutChildren(n: Node, children: seq<Node>): Node
    requires n.kind.Layout?
  {
    n.(kind := Layout(n.kind.tag, n.kind.own, children))
  }

  function IdSeq(ns: seq<Node>): seq<Id>
  {
    seq(|ns|, i requires 0 <= i < |ns| => ns[i].id)
  }

  /** The nearest child-bearing layout node whose `children` hold the id. */
  function FindLayoutParent(n: Node, target: Id): Option<Node>
    decreases Count(n), 0
  {
    if n.kind.Layout? && target in IdSeq(n.kind.children) then Some(n)
    else FindLayoutParentIn(ChildNodes(n), target)
  }

  function FindLayoutParentIn(ns: seq<Node>, target: Id): Option<Node>
    decreases CountAll(ns), 1
  {
    if ns == [] then None
    else
      var first := FindLayoutParent(ns[0], target);
      if first.Some? then first else FindLayoutParentIn(ns[1..], target)
  }

  function IsAncestor(ancestor: Id, descendant: Id, root: Node): bool
  {
    var a := FindNode(root, ancestor);
    a.Some? && descendant in IdsAll(ChildNodes(a.value))
  }

  /** The list without any node of the id. */
  function Without(ns: seq<Node>, target: Id): seq<Node>
  {
    if ns == [] then []
    else if ns[0].id == target then Without(ns[1..], target)
    else [ns[0]] + Without(ns[1..], target)
  }

  function FirstWithId(ns: seq<Node>, id: Id): Option<Node>
  {
    if ns == [] then None else if ns[0].id == id then Some(ns[0]) else FirstWithId(ns[1..], id)
  }

  /** The first child of each listed id, in the listed order. */
  function Pick(ns: seq<Node>, order: seq<Id>): seq<Node>
  {
    if order == [] then [] else OptionSeq(FirstWithId(ns, order[0])) + Pick(ns, order[1..])
  }

  function PatchedStyle(delta: StyleDelta, style: Style): Style
  {
    Style(if delta.direction.Some? then delta.direction.value else style.direction,
          if delta.emphasis.Some? then delta.emphasis.value else style.emphasis,
          if delta.role.Some? then delta.role.value else style.role,
          if delta.tone.Some? then delta.tone.value else style.tone,
          if delta.voice.Some? then delta.voice.value else style.voice,
          if delta.weight.Some? then delta.weight.value else style.weight)
  }

  /** A record setting no member is stored as the absent slot. */
  function Stored(a: Accessibility): Option<Accessibility>
  {
    if a == DEFAULT_ACCESSIBILITY then None else Some(a)
  }

  function WithOwn(kind: Kind, own: string): Kind
  {
    match kind
    case Layout(tag, _, children) => Layout(tag, own, children)
    case Structural(tag, _, parts) => Structural(tag, own, parts)
    case Leaf(tag, _) => Leaf(tag, own)
  }

  // ----- one op -----

  /** The ops that rewrite one found node and move nothing. */
  predicate IsNodeEdit(op: TreeOp)
  {
    op.EditNode? || op.UpdateProp? || op.ReplaceBinding? || op.UpdateStyle? || op.PatchStyle?
    || op.UpdateAccessibility? || op.UpdateTooltip? || op.UpdateState?
  }

  function Edited(tables: FieldTables, op: TreeOp, n: Node): Result<Node>
    requires IsNodeEdit(op)
  {
    match op
    case EditNode(_, newKind) => Ok(n.(kind := newKind))
    case UpdateProp(_, path, value) =>
      var own := tables.updateField(n.kind.tag, n.kind.own, path, value);
      if own.Err? then Err(own.error) else Ok(n.(kind := WithOwn(n.kind, own.value)))
    case ReplaceBinding(_, slot, binding) =>
      var own := tables.replaceBinding(n.kind.tag, n.kind.own, slot, binding);
      if own.None? then Fail(SlotNotFound) else Ok(n.(kind := WithOwn(n.kind, own.value)))
    case UpdateStyle(_, style) => Ok(n.(style := style))
    case PatchStyle(_, delta) => Ok(n.(style := PatchedStyle(delta, n.style)))
    case UpdateAccessibility(_, accessibility) => Ok(n.(accessibility := Stored(accessibility)))
    case UpdateTooltip(_, tooltip) => Ok(n.(tooltip := tooltip))
    case UpdateState(_, state) => Ok(n.(state := state))
  }

  function EditAt(tables: FieldTables, op: TreeOp, root: Node): Result<Node>
    requires IsNodeEdit(op)
  {
    var found := FindNode(root, op.target);
    if op.UpdateProp? && !tables.pathValid(op.path) then Fail(PathInvalid)
    else if found.None? then Fail(NodeNotFound)
    else
      var edited := Edited(tables, op, found.value);
      if edited.Err? then edited else Ok(Replace(root, op.target, edited.value))
  }

  function Insert(root: Node, parentId: Id, child: Node): Result<Node>
  {
    var parent := FindNode(root, parentId);
    if parent.None? then Fail(ParentNotFound)
    else if !parent.value.kind.Layout? then Fail(ChildlessKind)
    else if !(Ids(child) !! Ids(root)) then Fail(DuplicateNodeId)
    else Ok(Replace(root, parentId, WithLayoutChildren(parent.value, parent.value.kind.children + [child])))
  }

  function Remove(root: Node, target: Id): Result<Node>
  {
    if root.id == target then Fail(KindMismatch)
    else
      var parent := FindLayoutParent(root, target);
      if parent.None? then Fail(NodeNotFound)
      else
        var seat := FindNode(root, parent.value.id);
        if seat.None? then Fail(ParentNotFound)
        else if !seat.value.kind.Layout? then Fail(ChildlessKind)
        else Ok(Replace(root, parent.value.id,
          WithLayoutChildren(seat.value, Without(seat.value.kind.children, target))))
  }

  function Move(root: Node, target: Id, newParentId: Id): Result<Node>
  {
    if target == newParentId then Fail(KindMismatch)
    else if IsAncestor(target, newParentId, root) then Fail(KindMismatch)
    else
      var moving, newParent := FindNode(root, target), FindNode(root, newParentId);
      if moving.None? then Fail(NodeNotFound)
      else if newParent.None? then Fail(ParentNotFound)
      else if !newParent.value.kind.Layout? then Fail(ChildlessKind)
      else
        var removed := Remove(root, target);
        if removed.Err? then removed else Insert(removed.value, newParentId, moving.value)
  }

  function Reorder(root: Node, parentId: Id, newOrder: seq<Id>): Result<Node>
  {
    var parent := FindNode(root, parentId);
    if parent.None? then Fail(ParentNotFound)
    else if !parent.value.kind.Layout? then Fail(ChildlessKind)
    else if Ordinal.Sort(IdSeq(parent.value.kind.children)) != Ordinal.Sort(newOrder) then Fail(OrderingMismatch)
    else Ok(Replace(root, parentId, WithLayoutChildren(parent.value, Pick(parent.value.kind.children, newOrder))))
  }

  /** What `op` makes of `root`, before the guards on the result. */
  function Reduce(tables: FieldTables, op: TreeOp, root: Node): Result<Node>
    decreases op
  {
    match op
    case InsertChild(parentId, child) => Insert(root, parentId, child)
    case RemoveNode(target) => Remove(root, target)
    case MoveNode(target, newParentId) => Move(root, target, newParentId)
    case ReorderChildren(parentId, newOrder) => Reorder(root, parentId, newOrder)
    case ReplaceRoot(node) => Ok(node)
    case Batch(ops) => ReduceAll(tables, ops, 0, root)
    case _ => EditAt(tables, op, root)
  }

  /** A batch folds its members in order and aborts, naming the member, at the first refusal. */
  function ReduceAll(tables: FieldTables, ops: seq<TreeOp>, index: nat, root: Node): Result<Node>
    decreases ops
  {
    if ops == [] then Ok(root)
    else
      var first := Reduce(tables, ops[0], root);
      if first.Err? then Err(ApplyError(BatchAborted, Some(index)))
      else ReduceAll(tables, ops[1..], index + 1, first.value)
  }

  // ----- the guards -----

  /** The subtree roots an op puts into the tree. */
  function InsertedNodes(op: TreeOp): seq<Node>
    decreases op
  {
    match op
    case InsertChild(_, child) => [child]
    case ReplaceRoot(node) => [node]
    case EditNode(_, newKind) => KindChildren(newKind)
    case UpdateState(_, state) => OptionSeq(state.onLoading) + OptionSeq(state.onEmpty)
    case Batch(ops) => InsertedByAll(ops)
    case _ => []
  }

  function InsertedByAll(ops: seq<TreeOp>): seq<Node>
    decreases ops
  {
    if ops == [] then [] else InsertedNodes(ops[0]) + InsertedByAll(ops[1..])
  }

  predicate OpCanGrow(op: TreeOp)
    decreases op
  {
    match op
    case MoveNode(_, _) => true
    case Batch(ops) => AnyCanGrow(ops)
    case _ => InsertedNodes(op) != []
  }

  predicate AnyCanGrow(ops: seq<TreeOp>)
    decreases ops
  {
    ops != [] && (OpCanGrow(ops[0]) || AnyCanGrow(ops[1..]))
  }

  predicate WithinLimits(n: Node)
  {
    Depth(n) <= MAX_NODE_DEPTH && Count(n) <= MAX_NODES
  }

  /** Some installed id is held by more than one node of the result. */
  ghost predicate InstalledClash(installed: seq<Node>, result: Node)
  {
    exists x :: x in IdsAll(installed) && Ids(result)[x] > 1
  }

  /** Apply one op: reduce it, then hold its result to the limits and to id uniqueness. */
  ghost function Apply(tables: FieldTables, tree: Node, op: TreeOp): Result<Node>
  {
    var reduced := Reduce(tables, op, tree);
    if reduced.Err? then reduced
    else if OpCanGrow(op) && !WithinLimits(reduced.value) then Fail(LimitExceeded)
    else if InstalledClash(InsertedNodes(op), reduced.value) then Fail(DuplicateNodeId)
    else reduced
  }

  /** Fold `Apply` over a script, stopping at the first refusal. */
  ghost function ApplyAll(tables: FieldTables, tree: Node, ops: seq<TreeOp>): Result<Node>
    decreases ops
  {
    if ops == [] then Ok(tree)
    else
      var first := Apply(tables, tree, ops[0]);
      if first.Err? then first else ApplyAll(tables, first.value, ops[1..])
  }

  lemma {:induction false} ApplyAllConcat(tables: FieldTables, tree: Node, a: seq<TreeOp>, b: seq<TreeOp>)
    ensures ApplyAll(tables, tree, a + b) ==
      (var first := ApplyAll(tables, tree, a); if first.Err? then first else ApplyAll(tables, first.value, b))
    decreases a
  {
    if a == [] {
      assert a + b == b;
    } else {
      assert (a + b)[0] == a[0] && (a + b)[1..] == a[1..] + b;
      var first := Apply(tables, tree, a[0]);
      if first.Ok? { ApplyAllConcat(tables, first.value, a[1..], b); }
    }
  }

  // ----- the engine as the crate runs it: telemetry pushed onto a sink, loops over lists -----

  datatype Record = Record(op: string, targetId: Id)

  class Telemetry {
    var records: seq<Record>

    constructor ()
      ensures records == []
    {
      records := [];
    }

    method Push(r: Record)
      modifies this
      ensures records == old(records) + [r]
    {
      records := records + [r];
    }
  }

  /** The telemetry an accepted op emits: one record a leaf op, none for a root replacement. */
  function Records(op: TreeOp): seq<Record>
    decreases op
  {
    match op
    case EditNode(target, _) => [Record("EditNode", target)]
    case UpdateProp(target, _, _) => [Record("UpdateProp", target)]
    case ReplaceBinding(target, _, _) => [Record("ReplaceBinding", target)]
    case UpdateStyle(target, _) => [Record("UpdateStyle", target)]
    case PatchStyle(target, _) => [Record("PatchStyle", target)]
    case UpdateAccessibility(target, _) => [Record("UpdateAccessibility", target)]
    case UpdateTooltip(target, _) => [Record("UpdateTooltip", target)]
    case UpdateState(target, _) => [Record("UpdateState", target)]
    case InsertChild(parentId, _) => [Record("InsertChild", parentId)]
    case RemoveNode(target) => [Record("RemoveNode", target)]
    case MoveNode(target, _) => [Record("MoveNode", target)]
    case ReorderChildren(parentId, _) => [Record("ReorderChildren", parentId)]
    case ReplaceRoot(_) => []
    case Batch(ops) => RecordsOfAll(ops)
  }

  function RecordsOfAll(ops: seq<TreeOp>): seq<Record>
    decreases ops
  {
    if ops == [] then [] else Records(ops[0]) + RecordsOfAll(ops[1..])
  }

  lemma {:induction false} RecordsOfAllConcat(a: seq<TreeOp>, op: TreeOp)
    ensures RecordsOfAll(a + [op]) == RecordsOfAll(a) + Records(op)
  {
    if a == [] {
      assert a + [op] == [op];
    } else {
      assert (a + [op])[0] == a[0] && (a + [op])[1..] == a[1..] + [op];
      RecordsOfAllConcat(a[1..], op);
    }
  }

  lemma BatchStep(tables: FieldTables, ops: seq<TreeOp>, i: nat, state: Node)
    requires i < |ops|
    ensures var inner := Reduce(tables, ops[i], state);
      ReduceAll(tables, ops[i..], i, state) == if inner.Err? then Err(ApplyError(BatchAborted, Some(i)))
                                               else ReduceAll(tables, ops[i + 1..], i + 1, inner.value)
  {
    assert ops[i..][0] == ops[i] && ops[i..][1..] == ops[i + 1..];
  }

  lemma RecordsStep(before: seq<Record>, ops: seq<TreeOp>, i: nat)
    requires i < |ops|
    ensures before + RecordsOfAll(ops[..i]) + Records(ops[i]) == before + RecordsOfAll(ops[..i + 1])
  {
    RecordsOfAllConcat(ops[..i], ops[i]);
    assert ops[..i + 1] == ops[..i] + [ops[i]];
    var x, y := RecordsOfAll(ops[..i]), Records(ops[i]);
    assert before + x + y == before + (x + y);
  }

  /** The batch arm: fold the ops over one state, stopping at the first refusal. */
  method ApplyBatch(tables: FieldTables, ops: seq<TreeOp>, root: Node, telem: Telemetry) returns (r: Result<Node>)
    modifies telem
    ensures r == ReduceAll(tables, ops, 0, root)
    ensures r.Ok? ==> telem.records == old(telem.records) + RecordsOfAll(ops)
    decreases ops
  {
    var state := root;
    ghost var before := telem.records;
    for i := 0 to |ops|
      invariant ReduceAll(tables, ops, 0, root) == ReduceAll(tables, ops[i..], i, state)
      invariant telem.records == before + RecordsOfAll(ops[..i])
    {
      var inner := ApplyOne(tables, ops[i], state, telem);
      BatchStep(tables, ops, i, state);
      if inner.Err? {
        return Err(ApplyError(BatchAborted, Some(i)));
      }
      state := inner.value;
      RecordsStep(before, ops, i);
    }
    assert ops[..|ops|] == ops;
    r := Ok(state);
  }

  /** Reduce `op`, emitting telemetry as it goes; a refused batch may leave partial records. */
  method ApplyOne(tables: FieldTables, op: TreeOp, root: Node, telem: Telemetry) returns (r: Result<Node>)
    modifies telem
    ensures r == Reduce(tables, op, root)
    ensures r.Ok? ==> telem.records == old(telem.records) + Records(op)
    decreases op
  {
    match op {
      case Batch(ops) =>
        r := ApplyBatch(tables, ops, root, telem);
      case ReplaceRoot(node) =>
        r := Ok(node);
      case _ =>
        r := Reduce(tables, op, root);
        if r.Ok? {
          telem.Push(Records(op)[0]);
        }
    }
  }

  lemma IdsAllSnoc(ns: seq<Node>, i: nat)
    requires i < |ns|
    ensures IdsAll(ns[..i + 1]) == IdsAll(ns[..i]) + Ids(ns[i])
  {
    assert ns[..i + 1] == ns[..i] + [ns[i]];
    IdsAllConcat(ns[..i], [ns[i]]);
    assert [ns[i]][1..] == [];
    assert IdsAll([ns[i]]) == Ids(ns[i]) + IdsAll([]);
  }

  lemma IdsAllPrefix(ns: seq<Node>, i: nat)
    requires i <= |ns|
    ensures IdsAll(ns[..i]) <= IdsAll(ns)
  {
    assert ns == ns[..i] + ns[i..];
    IdsAllConcat(ns[..i], ns[i..]);
  }

  /** A subtree's ids, a node's own before those of its sub-nodes, sub-node by sub-node. */
  function DepthFirst(n: Node): seq<Id>
    decreases Count(n), 0
  {
    [n.id] + DepthFirstAll(ChildNodes(n))
  }

  function DepthFirstAll(ns: seq<Node>): seq<Id>
    decreases CountAll(ns), 1
  {
    if ns == [] then [] else DepthFirst(ns[0]) + DepthFirstAll(ns[1..])
  }

  lemma {:induction false} DepthFirstSnoc(ns: seq<Node>, n: Node)
    ensures DepthFirstAll(ns + [n]) == DepthFirstAll(ns) + DepthFirst(n)
    decreases |ns|
  {
    if ns == [] {
      assert ns + [n] == [n] && [n][1..] == [];
      assert DepthFirstAll([n]) == DepthFirst(n) + DepthFirstAll([]);
    } else {
      assert (ns + [n])[1..] == ns[1..] + [n];
      DepthFirstSnoc(ns[1..], n);
    }
  }

  lemma DepthFirstStep(ns: seq<Node>, i: nat)
    requires i < |ns|
    ensures DepthFirstAll(ns[..i + 1]) == DepthFirstAll(ns[..i]) + DepthFirst(ns[i])
  {
    assert ns[..i + 1] == ns[..i] + [ns[i]];
    DepthFirstSnoc(ns[..i], ns[i]);
  }

  lemma {:induction false} DepthFirstBag(n: Node)
    ensures multiset(DepthFirst(n)) == Ids(n)
    decreases Count(n), 0
  {
    DepthFirstAllBag(ChildNodes(n));
  }

  lemma {:induction false} DepthFirstAllBag(ns: seq<Node>)
    ensures multiset(DepthFirstAll(ns)) == IdsAll(ns)
    decreases CountAll(ns), 1
  {
    if ns != [] {
      DepthFirstBag(ns[0]);
      DepthFirstAllBag(ns[1..]);
    }
  }

  lemma SubNodeSmaller(n: Node, i: nat)
    requires i < |ChildNodes(n)|
    ensures Count(ChildNodes(n)[i]) < Count(n)
  {
    CountAllAt(ChildNodes(n), i);
  }

  lemma Followed(first: Id, ns: seq<Node>, i: nat)
    requires i < |ns|
    ensures [first] + DepthFirstAll(ns[..i]) + DepthFirst(ns[i]) == [first] + DepthFirstAll(ns[..i + 1])
  {
    DepthFirstStep(ns, i);
    var x, y := DepthFirstAll(ns[..i]), DepthFirst(ns[i]);
    assert [first] + x + y == [first] + (x + y);
  }

  /** Every id of a subtree in depth-first order. */
  method AllNodeIds(n: Node) returns (ids: seq<Id>)
    ensures ids == DepthFirst(n) && multiset(ids) == Ids(n)
    decreases Count(n)
  {
    DepthFirstBag(n);
    ids := [n.id];
    var cs := ChildNodes(n);
    for i := 0 to |cs|
      invariant ids == [n.id] + DepthFirstAll(cs[..i])
    {
      SubNodeSmaller(n, i);
      Followed(n.id, cs, i);
      var below := AllNodeIds(cs[i]);
      ids := ids + below;
    }
    assert cs[..|cs|] == cs;
  }

  method CountIds(ids: seq<Id>) returns (counts: map<Id, nat>)
    ensures forall x :: (if x in counts then counts[x] else 0) == multiset(ids)[x]
  {
    counts := map[];
    for i := 0 to |ids|
      invariant forall x :: (if x in counts then counts[x] else 0) == multiset(ids[..i])[x]
    {
      assert ids[..i + 1] == ids[..i] + [ids[i]];
      counts := counts[ids[i] := if ids[i] in counts then counts[ids[i]] + 1 else 1];
    }
    assert ids[..|ids|] == ids;
  }

  method AnyRepeated(ids: seq<Id>, counts: map<Id, nat>) returns (found: bool)
    ensures found <==> exists x :: x in multiset(ids) && x in counts && counts[x] > 1
  {
    for j := 0 to |ids|
      invariant forall k :: 0 <= k < j ==> !(ids[k] in counts && counts[ids[k]] > 1)
    {
      if ids[j] in counts && counts[ids[j]] > 1 {
        assert ids[j] in multiset(ids);
        return true;
      }
    }
    found := false;
  }

  method CountTree(n: Node) returns (counts: map<Id, nat>)
    ensures forall x :: (if x in counts then counts[x] else 0) == Ids(n)[x]
  {
    var ids := AllNodeIds(n);
    counts := CountIds(ids);
  }

  method RepeatsIn(n: Node, counts: map<Id, nat>) returns (found: bool)
    ensures found <==> exists x :: x in Ids(n) && x in counts && counts[x] > 1
  {
    var ids := AllNodeIds(n);
    found := AnyRepeated(ids, counts);
  }

  lemma OneMoreClash(installed: seq<Node>, i: nat, result: Node, counts: map<Id, nat>, found: bool)
    requires i < |installed| && !InstalledClash(installed[..i], result)
    requires forall x :: (if x in counts then counts[x] else 0) == Ids(result)[x]
    requires found <==> exists x :: x in Ids(installed[i]) && x in counts && counts[x] > 1
    ensures InstalledClash(installed[..i + 1], result) <==> found
    ensures found ==> InstalledClash(installed, result)
  {
    IdsAllSnoc(installed, i);
    IdsAllPrefix(installed, i + 1);
    if found {
      var x :| x in Ids(installed[i]) && x in counts && counts[x] > 1;
      assert x in IdsAll(installed[..i + 1]) && x in IdsAll(installed) && Ids(result)[x] > 1;
    }
  }

  /** Whether an installed id is repeated: count the result's ids once, then read each installed id. */
  method CheckInstalledIds(installed: seq<Node>, result: Node) returns (clash: bool)
    ensures clash <==> InstalledClash(installed, result)
  {
    var counts := CountTree(result);
    for i := 0 to |installed|
      invariant !InstalledClash(installed[..i], result)
    {
      var found := RepeatsIn(installed[i], counts);
      OneMoreClash(installed, i, result, counts, found);
      if found {
        return true;
      }
    }
    assert installed[..|installed|] == installed;
    clash := false;
  }

  method ApplyTree(tables: FieldTables, tree: Node, op: TreeOp) returns (r: Result<Node>, telemetry: seq<Record>)
    ensures r == Apply(tables, tree, op)
    ensures telemetry == if r.Ok? then Records(op) else []
  {
    var telem := new Telemetry();
    var reduced := ApplyOne(tables, op, tree, telem);
    telemetry := [];
    if reduced.Err? {
      return reduced, [];
    }
    if OpCanGrow(op) {
      var depth, count := TreeMetrics(reduced.value);
      if depth > MAX_NODE_DEPTH || count > MAX_NODES {
        return Fail(LimitExceeded), [];
      }
    }
    var clash := CheckInstalledIds(InsertedNodes(op), reduced.value);
    if clash {
      return Fail(DuplicateNodeId), [];
    }
    r, telemetry := reduced, telem.records;
  }
}
