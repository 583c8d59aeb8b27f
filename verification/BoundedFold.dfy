/** The bounded fold of one action over a store: a chain in order, one store write, one effect a leaf. */
module BoundedFold {
  import opened Trees
  import opened ConfirmTokens

  type Store = map<string, Json>

  datatype LiveValue = LStr(text: string) | LNum(text: string) | LBool(b: bool) | LNull

  type Payload = map<string, LiveValue>

  datatype Effect = Ask(prompt: string, token: string) | Surface(kind: string)

  datatype Diagnostic = Unsupported(arm: string) | RefusedAct(arm: string)

  datatype Outcome = Outcome(store: Store, effects: seq<Effect>, diagnostics: seq<Diagnostic>)

  /** What an arm this model does not take apart does as a leaf: never a question. */
  datatype LeafAct = Emits(kind: string) | Refuses | Declines

  datatype FormField = FormField(id: string, commitTo: Option<string>, numeric: bool)

  /** A node: its handler, its form fields, its store-reactive content, its ordered children and the
      nodes it holds in other positions. */
  datatype PNode = PNode(id: string, handler: Option<(string, Action)>, fields: seq<FormField>, content: string,
                         children: seq<PNode>, parts: seq<PNode>)

  datatype Event = Event(nodeId: string, name: string, payload: Payload)

  /** The seams a host supplies. */
  datatype Host = Host(
    resolveText: (Store, Source) -> Option<string>, resolveValue: (Store, Source) -> Option<Json>,
        isBlank: string -> bool,
    readNumber: string -> Option<string>, leafAct: (string, string, Store) -> LeafAct,
    outside: (PNode, Event) -> bool, canDispatch: Action -> bool, deny: Effect -> Option<string>,
    resolveContent: (Store, string) -> string, seeds: PNode -> Store, treeCost: (nat, PNode) -> nat)

  // ----- the flush -----

  function FieldIn(fields: seq<FormField>, id: string): Option<FormField>
  {
    if fields == [] then None else if fields[0].id == id then Some(fields[0]) else FieldIn(fields[1..], id)
  }

  /** The first form field of an id in document order, a form's own before its children's. */
  function FieldOf(n: PNode, id: string): Option<FormField>
    decreases n
  {
    var own := FieldIn(n.fields, id);
    if own.Some? then own else FieldAmong(n.children, id)
  }

  function FieldAmong(ns: seq<PNode>, id: string): Option<FormField>
    decreases ns
  {
    if ns == [] then None
    else
      var first := FieldOf(ns[0], id);
      if first.Some? then first else FieldAmong(ns[1..], id)
  }

  /** What a commit is flushed from: the fixed tree and the admitted event's payload. */
  datatype Flush = Flush(tree: PNode, payload: Payload)

  /** Where a commit writes, if its field declares a destination. */
  function Destination(tree: PNode, field: string): Option<FormField>
  {
    var f := FieldOf(tree, field);
    if f.Some? && f.value.commitTo.Some? then f else None
  }

  /** The value a commit writes: as it arrived, but a number for a numeric field, and none when absent. */
  function FlushedValue(h: Host, numeric: bool, payload: Payload, field: string): Option<Json>
  {
    if field !in payload then None
    else
      match payload[field]
      case LNull => None
      case LNum(t) => Some(JNum(t))
      case LStr(t) =>
        if numeric then
          var n := h.readNumber(t);
          if n.Some? then Some(JNum(n.value)) else None
        else Some(JStr(t))
      case LBool(b) => if numeric then None else Some(JBool(b))
  }

  /** The write a commit performs, as the state write it is. */
  function FlushWrite(h: Host, flush: Flush, field: string): Option<Action>
  {
    var d := Destination(flush.tree, field);
    if d.None? then None
    else
      var v := FlushedValue(h, d.value.numeric, flush.payload, field);
      if v.None? then None else Some(SetState(d.value.commitTo.value, v, None))
  }

  /** The writes a fold of an action flushes, in order: nothing beneath a question. */
  function CommitWrites(h: Host, flush: Flush, a: Action): seq<Action>
    decreases a
  {
    match a
    case Chain(ops) => CommitWritesAll(h, flush, ops)
    case CommitLocal(field) =>
      var w := FlushWrite(h, flush, field);
      if w.Some? then [w.value] else []
    case _ => []
  }

  function CommitWritesAll(h: Host, flush: Flush, ops: seq<Action>): seq<Action>
    decreases ops
  {
    if ops == [] then [] else CommitWrites(h, flush, ops[0]) + CommitWritesAll(h, flush, ops[1..])
  }

  // ----- the fold -----

  const RESERVED := "host."

  predicate Reserved(key: string) { RESERVED <= key }

  function Assign(h: Host, key: string, value: Option<Json>, from: Option<Source>, store: Store): Outcome
  {
    if Reserved(key) then Outcome(store, [], [RefusedAct("SetState")])
    else
      var v := if from.Some? then h.resolveValue(store, from.value) else value;
      if v.None? then Outcome(store, [], [RefusedAct("SetState")]) else Outcome(store[key := v.value], [], [])
  }

  /** One action that is not a chain, at its path in its node's action. */
  function FoldOne(h: Host, flush: Flush, nodeId: string, a: Action, path: string, store: Store): Outcome
    requires !a.Chain?
  {
    match a
    case SetState(key, value, from) => Assign(h, key, value, from, store)
    case CommitLocal(field) =>
      var w := FlushWrite(h, flush, field);
      if w.Some? then Assign(h, w.value.key, w.value.value, None, store)
      else
        var declared := Destination(flush.tree, field).Some?;
        Outcome(store, [], [if declared then RefusedAct("CommitLocal") else Unsupported("CommitLocal")])
    case Call(_) => Outcome(store, [], [Unsupported("Call")])
    case Confirm(prompt, _, _) =>
      var text := h.resolveText(store, prompt);
      if text.Some? && !h.isBlank(text.value) then Outcome(store, [Ask(text.value, ConfirmToken(nodeId, path))], [])
      else Outcome(store, [], [RefusedAct("Confirm")])
    case Other(arm) =>
      match h.leafAct(nodeId, arm, store)
      case Emits(kind) => Outcome(store, [Surface(kind)], [])
      case Refuses => Outcome(store, [], [RefusedAct(arm)])
      case Declines => Outcome(store, [], [Unsupported(arm)])
  }

  function Fold(h: Host, flush: Flush, nodeId: string, a: Action, path: string, store: Store): Outcome
    decreases a
  {
    match a
    case Chain(ops) => FoldAll(h, flush, nodeId, ops, path, 0, store)
    case _ => FoldOne(h, flush, nodeId, a, path, store)
  }

  function FoldAll(h: Host, flush: Flush, nodeId: string, ops: seq<Action>, path: string, index: nat,
                   store: Store): Outcome
    decreases ops
  {
    if ops == [] then Outcome(store, [], [])
    else
      var first := Fold(h, flush, nodeId, ops[0], ChildPath(path, index), store);
      var rest := FoldAll(h, flush, nodeId, ops[1..], path, index + 1, first.store);
      Outcome(rest.store, first.effects + rest.effects, first.diagnostics + rest.diagnostics)
  }

  /** The number of leaves of a cascade: a chain flattens, every other arm costs one. */
  function CascadeCost(a: Action): nat
    decreases a
  {
    match a case Chain(ops) => CascadeCostAll(ops) case _ => 1
  }

  function CascadeCostAll(ops: seq<Action>): nat
    decreases ops
  {
    if ops == [] then 0 else CascadeCost(ops[0]) + CascadeCostAll(ops[1..])
  }

  // ----- what a fold writes -----

  /** The keys an action's own state writes name, outside any question. */
  function SetKeys(a: Action): set<string>
    decreases a
  {
    match a case Chain(ops) => SetKeysAll(ops) case SetState(key, _, _) => {key} case _ => {}
  }

  function SetKeysAll(ops: seq<Action>): set<string>
    decreases ops
  {
    if ops == [] then {} else SetKeys(ops[0]) + SetKeysAll(ops[1..])
  }

  /** Two stores hold the same at a key, or neither holds it. */
  predicate SameAt(a: Store, b: Store, key: string)
  {
    (key in a <==> key in b) && (key in a ==> a[key] == b[key])
  }

  ghost predicate WrittenBy(ws: seq<Action>, key: string)
  {
    exists w :: w in ws && w.SetState? && w.key == key
  }

  /** A fold changes a key only if one of the action's state writes or commits names it, and never a
      reserved one. */
  lemma {:induction false} FoldWrites(h: Host, flush: Flush, nodeId: string, a: Action, path: string, store: Store,
                                      key: string)
    requires !SameAt(store, Fold(h, flush, nodeId, a, path, store).store, key)
    ensures !Reserved(key) && (key in SetKeys(a) || WrittenBy(CommitWrites(h, flush, a), key))
    decreases a
  {
    match a
    case Chain(ops) => FoldAllWrites(h, flush, nodeId, ops, path, 0, store, key);
    case CommitLocal(field) =>
      var w := FlushWrite(h, flush, field);
      assert w.Some? ==> w.value in CommitWrites(h, flush, a);
    case _ =>
  }

  lemma {:induction false} FoldAllWrites(h: Host, flush: Flush, nodeId: string, ops: seq<Action>, path: string,
                                         index: nat, store: Store, key: string)
    requires !SameAt(store, FoldAll(h, flush, nodeId, ops, path, index, store).store, key)
    ensures !Reserved(key) && (key in SetKeysAll(ops) || WrittenBy(CommitWritesAll(h, flush, ops), key))
    decreases ops
  {
    var first := Fold(h, flush, nodeId, ops[0], ChildPath(path, index), store);
    if !SameAt(store, first.store, key) {
      FoldWrites(h, flush, nodeId, ops[0], ChildPath(path, index), store, key);
    } else {
      FoldAllWrites(h, flush, nodeId, ops[1..], path, index + 1, first.store, key);
    }
  }

  // ----- what a fold asks -----

  lemma {:induction false} PathTextSnoc(path: seq<Segment>, s: Segment)
    ensures PathText(path + [s]) == if path == [] then SegmentText(s) else PathText(path) + ['.'] + SegmentText(s)
  {
    if path == [] {
      assert path + [s] == [s];
    } else {
      assert (path + [s])[1..] == path[1..] + [s] && (path + [s])[0] == path[0];
      PathTextSnoc(path[1..], s);
      if |path| == 1 {
        assert path[1..] == [];
      } else {
        Joined(SegmentText(path[0]), PathText(path[1..]), SegmentText(s));
      }
    }
  }

  lemma Joined(a: string, b: string, c: string)
    ensures a + ['.'] + (b + ['.'] + c) == (a + ['.'] + b) + ['.'] + c
  {
  }

  lemma PathTextEmpty(path: seq<Segment>)
    ensures PathText(path) == "" <==> path == []
  {
    if path != [] { SplitPath(path); }
  }

  lemma ChildPathText(path: seq<Segment>, index: nat)
    ensures ChildPath(PathText(path), index) == PathText(path + [Position(index)])
  {
    PathTextSnoc(path, Position(index));
    PathTextEmpty(path);
  }

  lemma BranchPathText(path: seq<Segment>, s: Segment)
    ensures BranchPath(PathText(path), SegmentText(s)) == PathText(path + [s])
  {
    PathTextSnoc(path, s);
    PathTextEmpty(path);
  }

  lemma {:induction false} AtSnoc(a: Action, path: seq<Segment>, s: Segment)
    ensures At(a, path + [s]) == if At(a, path).Some? then Into(At(a, path).value, s) else None
    decreases |path|
  {
    if path == [] {
      assert path + [s] == [s] && [s][1..] == [];
    } else {
      assert (path + [s])[1..] == path[1..] + [s] && (path + [s])[0] == path[0];
      var first := Into(a, path[0]);
      if first.Some? { AtSnoc(first.value, path[1..], s); }
    }
  }

  /** Every question a fold asks carries the token of the confirm it came from. */
  lemma {:induction false} FoldAsks(h: Host, flush: Flush, nodeId: string, root: Action, a: Action, path: seq<Segment>,
                                    store: Store, e: Effect)
    requires At(root, path) == Some(a) && e in Fold(h, flush, nodeId, a, PathText(path), store).effects && e.Ask?
    ensures Minted(nodeId, root, e.token)
    decreases a
  {
    match a
    case Chain(ops) => FoldAllAsks(h, flush, nodeId, root, a, ops, path, 0, store, e);
    case _ =>
  }

  lemma {:induction false} FoldAllAsks(h: Host, flush: Flush, nodeId: string, root: Action, a: Action,
                                       ops: seq<Action>, path: seq<Segment>, index: nat, store: Store, e: Effect)
    requires At(root, path) == Some(a) && a.Chain? && index <= |a.ops| && ops == a.ops[index..]
    requires e in FoldAll(h, flush, nodeId, ops, PathText(path), index, store).effects && e.Ask?
    ensures Minted(nodeId, root, e.token)
    decreases ops
  {
    var child := path + [Position(index)];
    ChildPathText(path, index);
    AtSnoc(root, path, Position(index));
    assert ops[0] == a.ops[index];
    var first := Fold(h, flush, nodeId, ops[0], PathText(child), store);
    if e in first.effects {
      FoldAsks(h, flush, nodeId, root, ops[0], child, store, e);
    } else {
      assert ops[1..] == a.ops[index + 1..];
      FoldAllAsks(h, flush, nodeId, root, a, ops[1..], path, index + 1, first.store, e);
    }
  }
}
