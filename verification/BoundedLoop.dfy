/** The program loop: validate, price, fold, re-resolve the fixed tree, and the confirm round trip. */
module BoundedLoop {
  import opened Trees
  import opened ConfirmTokens
  import opened BoundedFold

  // ----- the tree the loop renders -----

  /** One node's own slots re-resolved, its handler and its structure as they were. */
  function ResolveTree(h: Host, store: Store, n: PNode): PNode
    decreases n
  {
    PNode(n.id, n.handler, n.fields, h.resolveContent(store, n.content), ResolveAll(h, store, n.children), n.parts)
  }

  function ResolveAll(h: Host, store: Store, ns: seq<PNode>): seq<PNode>
    decreases ns
  {
    if ns == [] then [] else [ResolveTree(h, store, ns[0])] + ResolveAll(h, store, ns[1..])
  }

  /** The first node of an id in document order. */
  function GetNode(n: PNode, id: string): Option<PNode>
    decreases n
  {
    if n.id == id then Some(n)
    else
      var below := GetAmong(n.children, id);
      if below.Some? then below else GetAmong(n.parts, id)
  }

  function GetAmong(ns: seq<PNode>, id: string): Option<PNode>
    decreases ns
  {
    if ns == [] then None
    else
      var first := GetNode(ns[0], id);
      if first.Some? then first else GetAmong(ns[1..], id)
  }

  /** The handler of the first node of an id. */
  function HandlerAt(found: Option<PNode>): Option<(string, Action)>
  {
    if found.Some? then found.value.handler else None
  }

  /** Re-resolution moves no node and no handler. */
  lemma {:induction false} ResolveKeepsHandlers(h: Host, store: Store, n: PNode, id: string)
    ensures var a, b := GetNode(n, id), GetNode(ResolveTree(h, store, n), id);
      (a.Some? <==> b.Some?) && HandlerAt(a) == HandlerAt(b)
    decreases n
  {
    if n.id != id { ResolveKeepsAll(h, store, n.children, id); }
  }

  lemma {:induction false} ResolveKeepsAll(h: Host, store: Store, ns: seq<PNode>, id: string)
    ensures var a, b := GetAmong(ns, id), GetAmong(ResolveAll(h, store, ns), id);
      (a.Some? <==> b.Some?) && HandlerAt(a) == HandlerAt(b)
    decreases ns
  {
    if ns != [] {
      ResolveKeepsHandlers(h, store, ns[0], id);
      ResolveKeepsAll(h, store, ns[1..], id);
      assert ResolveAll(h, store, ns)[1..] == ResolveAll(h, store, ns[1..]);
    }
  }

  // ----- one event -----

  datatype Reject = UnknownNode | OutsideValueSpace | DispatchDenied | AddressesNothing | NoSuchQuestion | OverBudget

  /** What a program is set up with: none of it moves with events. */
  datatype Setup = Setup(host: Host, base: PNode, maxActions: nat, maxNodes: nat)

  datatype LoopState = LoopState(store: Store, resolved: PNode, pending: seq<string>)

  datatype StepOutput = StepOutput(effects: seq<Effect>, denials: seq<string>, rejected: Option<Reject>,
                                   diagnostics: seq<Diagnostic>)

  const TOKEN_KEY := "confirmToken"
  const ACCEPTED_KEY := "confirmAccepted"

  /** An event is an answer when it carries both members, of their types. */
  function AnswerOf(e: Event): Option<(string, bool)>
  {
    if TOKEN_KEY in e.payload && e.payload[TOKEN_KEY].LStr? && ACCEPTED_KEY in e.payload
      && e.payload[ACCEPTED_KEY].LBool?
    then Some((e.payload[TOKEN_KEY].text, e.payload[ACCEPTED_KEY].b)) else None
  }

  datatype Validated = Invalid(reject: Reject) | Inert | Acts(action: Action)

  /** The trust boundary, against the current tree. */
  function Validate(h: Host, tree: PNode, e: Event): Validated
  {
    var node := GetNode(tree, e.nodeId);
    if node.None? then Invalid(UnknownNode)
    else if h.outside(node.value, e) then Invalid(OutsideValueSpace)
    else
      var handler := node.value.handler;
      if handler.None? || handler.value.0 != e.name then Inert
      else if h.canDispatch(handler.value.1) then Acts(handler.value.1)
      else Invalid(DispatchDenied)
  }

  /** The continuation an answer selects. */
  function AnswerBranch(confirm: Action, accepted: bool): Option<Action>
    requires confirm.Confirm?
  {
    if accepted then Some(confirm.onConfirm) else confirm.onCancel
  }

  function BranchName(accepted: bool): string { if accepted then "onConfirm" else "onCancel" }

  /** What an event folds: an action at a path in its node's action, or nothing. */
  datatype Work = Work(action: Option<Action>, path: string, answered: Option<string>)

  datatype Admission = Refused(reject: Reject) | Admitted(work: Work)

  function Admit(h: Host, pending: seq<string>, e: Event, action: Action): Admission
  {
    match AnswerOf(e)
    case None => Admitted(Work(Some(action), "", None))
    case Some((token, accepted)) =>
      if token !in pending then Refused(NoSuchQuestion)
      else
        match AddressedAt(e.nodeId, token, action)
        case None => Refused(AddressesNothing)
        case Some((path, confirm)) =>
          var branch := AnswerBranch(confirm, accepted);
          if branch.Some? && !h.canDispatch(branch.value) then Refused(DispatchDenied)
          else Admitted(Work(branch, BranchPath(path, BranchName(accepted)), Some(token)))
  }

  function WritesOf(h: Host, flush: Flush, w: Work): seq<Action>
  {
    if w.action.Some? then CommitWrites(h, flush, w.action.value) else []
  }

  predicate AllPermitted(h: Host, ws: seq<Action>)
  {
    forall i :: 0 <= i < |ws| ==> h.canDispatch(ws[i])
  }

  function Performed(h: Host, flush: Flush, nodeId: string, w: Work, store: Store): Outcome
  {
    if w.action.Some? then Fold(h, flush, nodeId, w.action.value, w.path, store) else Outcome(store, [], [])
  }

  function Asked(effects: seq<Effect>): (tokens: seq<string>)
    ensures forall t :: t in tokens <==> exists e :: e in effects && e.Ask? && e.token == t
  {
    if effects == [] then []
    else
      var rest := Asked(effects[1..]);
      assert forall e :: e in effects <==> e == effects[0] || e in effects[1..];
      (if effects[0].Ask? then [effects[0].token] else []) + rest
  }

  function Without(pending: seq<string>, token: string): (r: seq<string>)
    ensures forall t :: t in r <==> t in pending && t != token
  {
    if pending == [] then []
    else (if pending[0] == token then [] else [pending[0]]) + Without(pending[1..], token)
  }

  function Denials(h: Host, effects: seq<Effect>): seq<string>
  {
    if effects == [] then []
    else
      var d := h.deny(effects[0]);
      (if d.Some? then [d.value] else []) + Denials(h, effects[1..])
  }

  function Refusal(r: Reject): StepOutput { StepOutput([], [], Some(r), []) }

  /** One step of the loop. */
  function Handle(su: Setup, st: LoopState, e: Event): (LoopState, StepOutput)
  {
    var h := su.host;
    match Validate(h, st.resolved, e)
    case Invalid(r) => (st, Refusal(r))
    case Inert =>
      if AnswerOf(e).Some? then (st, Refusal(AddressesNothing))
      else (st.(pending := []), StepOutput([], [], None, []))
    case Acts(action) =>
      match Admit(h, st.pending, e, action)
      case Refused(r) => (st, Refusal(r))
      case Admitted(w) =>
        var flush := Flush(su.base, e.payload);
        if !AllPermitted(h, WritesOf(h, flush, w)) then (st, Refusal(DispatchDenied))
        else if (if w.action.Some? then CascadeCost(w.action.value) else 0) > su.maxActions then (st,
          Refusal(OverBudget))
        else if h.treeCost(su.maxNodes, su.base) > su.maxNodes then (st, Refusal(OverBudget))
        else
          var o := Performed(h, flush, e.nodeId, w, st.store);
          var kept := if w.answered.Some? then Without(st.pending, w.answered.value) else [];
          (LoopState(o.store, ResolveTree(h, o.store, su.base), kept + Asked(o.effects)),
           StepOutput(o.effects, Denials(h, o.effects), None, o.diagnostics))
  }

  /** The store with the tree's own declarations laid under it. */
  function Seeded(h: Host, base: PNode, store: Store): Store { h.seeds(base) + store }

  /** The tree a program shows before its first event: left unresolved when it is over budget. */
  function FirstResolved(su: Setup, store: Store): PNode
  {
    if su.host.treeCost(su.maxNodes, su.base) > su.maxNodes then su.base
    else ResolveTree(su.host, Seeded(su.host, su.base, store), su.base)
  }

  class BoundedProgram {
    const host: Host
    const base: PNode
    var maxActions: nat
    var maxNodes: nat
    var nodeCost: nat
    var store: Store
    var resolved: PNode
    var pending: seq<string>

    ghost function SetupNow(): Setup
      reads this
    {
      Setup(host, base, maxActions, maxNodes)
    }

    ghost function Now(): LoopState
      reads this
    {
      LoopState(store, resolved, pending)
    }

    ghost predicate Priced()
      reads this
    {
      nodeCost == host.treeCost(maxNodes, base)
    }

    constructor (h: Host, tree: PNode, actions: nat, nodes: nat)
      ensures host == h && base == tree && maxActions == actions && maxNodes == nodes && Priced()
      ensures store == map[] && pending == [] && resolved == FirstResolved(Setup(h, tree, actions, nodes), map[])
    {
      host, base, maxActions, maxNodes, store, pending := h, tree, actions, nodes, map[], [];
      nodeCost := h.treeCost(nodes, tree);
      resolved := FirstResolved(Setup(h, tree, actions, nodes), map[]);
    }

    method Reprice()
      modifies this
      ensures Priced() && resolved == FirstResolved(SetupNow(), store)
      ensures store == old(store) && pending == old(pending) && maxActions == old(maxActions)
        && maxNodes == old(maxNodes)
    {
      nodeCost := host.treeCost(maxNodes, base);
      if nodeCost > maxNodes {
        resolved := base;
      } else {
        resolved := ResolveTree(host, Seeded(host, base, store), base);
      }
    }

    method WithStore(s: Store)
      modifies this
      ensures Priced() && store == s && resolved == FirstResolved(SetupNow(), s)
      ensures pending == old(pending) && maxActions == old(maxActions) && maxNodes == old(maxNodes)
    {
      store := s;
      Reprice();
    }

    method HandleEvent(e: Event) returns (out: StepOutput)
      requires Priced()
      modifies this
      ensures Priced() && SetupNow() == old(SetupNow())
      ensures (Now(), out) == Handle(old(SetupNow()), old(Now()), e)
    {
      var validated := Validate(host, resolved, e);
      match validated {
        case Invalid(r) =>
          return Refusal(r);
        case Inert =>
          if AnswerOf(e).Some? {
            return Refusal(AddressesNothing);
          }
          pending := [];
          return StepOutput([], [], None, []);
        case Acts(action) =>
          var work: Work;
          var answer := AnswerOf(e);
          if answer.None? {
            work := Work(Some(action), "", None);
          } else {
            var (token, accepted) := answer.value;
            if token !in pending {
              return Refusal(NoSuchQuestion);
            }
            var found := AddressedConfirm(e.nodeId, token, action);
            if found.None? {
              return Refusal(AddressesNothing);
            }
            var (path, confirm) := found.value;
            var branch := AnswerBranch(confirm, accepted);
            if branch.Some? && !host.canDispatch(branch.value) {
              return Refusal(DispatchDenied);
            }
            work := Work(branch, BranchPath(path, BranchName(accepted)), Some(token));
          }
          var flush := Flush(base, e.payload);
          if !AllPermitted(host, WritesOf(host, flush, work)) {
            return Refusal(DispatchDenied);
          }
          var cost := if work.action.Some? then CascadeCost(work.action.value) else 0;
          if cost > maxActions {
            return Refusal(OverBudget);
          }
          if nodeCost > maxNodes {
            return Refusal(OverBudget);
          }
          if work.answered.Some? {
            pending := Without(pending, work.answered.value);
          } else {
            pending := [];
          }
          var outcome := Performed(host, flush, e.nodeId, work, store);
          pending := pending + Asked(outcome.effects);
          store := outcome.store;
          resolved := ResolveTree(host, store, base);
          out := StepOutput(outcome.effects, Denials(host, outcome.effects), None, outcome.diagnostics);
      }
    }
  }
}
