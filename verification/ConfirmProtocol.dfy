/** The confirm protocol over every sequence of events. */
module ConfirmProtocol {
  import opened Trees
  import opened ConfirmTokens
  import opened BoundedFold
  import opened BoundedLoop

  /** The state a sequence of events leads to. */
  function After(su: Setup, st: LoopState, events: seq<Event>): LoopState
    decreases |events|
  {
    if events == [] then st
    else
      var n := |events| - 1;
      Handle(su, After(su, st, events[..n]), events[n]).0
  }

  /** What one step of a run did, as far as questions go. */
  datatype Turn = Turn(refused: bool, answered: Option<string>, asked: seq<string>)

  function TurnOf(e: Event, out: StepOutput): Turn
  {
    Turn(out.rejected.Some?,
         if AnswerOf(e).Some? then Some(AnswerOf(e).value.0) else None,
         Asked(out.effects))
  }

  function Turns(su: Setup, st: LoopState, events: seq<Event>): (ts: seq<Turn>)
    ensures |ts| == |events|
    decreases |events|
  {
    if events == [] then []
    else
      var n := |events| - 1;
      Turns(su, st, events[..n]) + [TurnOf(events[n], Handle(su, After(su, st, events[..n]), events[n]).1)]
  }

  /** The token was asked at some admitted turn, and every admitted turn since was the answer to another
      question: none withdrew it, none consumed it. */
  ghost predicate Standing(ts: seq<Turn>, token: string)
  {
    exists i :: 0 <= i < |ts| && !ts[i].refused && token in ts[i].asked && Undisturbed(ts, i, token)
  }

  ghost predicate Undisturbed(ts: seq<Turn>, i: nat, token: string)
  {
    forall j :: i < j < |ts| && !ts[j].refused ==> ts[j].answered.Some? && ts[j].answered.value != token
  }

  // ----- one step -----

  /** A refused event leaves the store, the resolved tree and the pending questions as they were, and
      reaches no effect. */
  lemma RefusedChangesNothing(su: Setup, st: LoopState, e: Event)
    requires Handle(su, st, e).1.rejected.Some?
    ensures Handle(su, st, e).0 == st && Handle(su, st, e).1.effects == []
  {
  }

  /** How an admitted step moves the pending questions. */
  lemma AdmittedPending(su: Setup, st: LoopState, e: Event)
    requires Handle(su, st, e).1.rejected.None?
    ensures var (after, out) := Handle(su, st, e);
      forall t :: t in after.pending <==>
        t in Asked(out.effects) || (AnswerOf(e).Some? && t in st.pending && t != AnswerOf(e).value.0)
  {
    var h := su.host;
    if Validate(h, st.resolved, e).Acts? {
      var action := Validate(h, st.resolved, e).action;
      AdmitAnswers(h, st.pending, e, action);
    }
  }

  lemma AdmitAnswers(h: Host, pending: seq<string>, e: Event, action: Action)
    requires Admit(h, pending, e, action).Admitted?
    ensures var w := Admit(h, pending, e, action).work;
      (w.answered.Some? <==> AnswerOf(e).Some?) && (w.answered.Some? ==> w.answered.value == AnswerOf(e).value.0)
    ensures AnswerOf(e).Some? ==> AnswerOf(e).value.0 in pending
  {
  }

  /** An answer is admitted only to a pending question. */
  lemma AdmittedAnswerIsPending(su: Setup, st: LoopState, e: Event)
    requires Handle(su, st, e).1.rejected.None? && AnswerOf(e).Some?
    ensures AnswerOf(e).value.0 in st.pending
  {
    var h := su.host;
    if Validate(h, st.resolved, e).Acts? {
      AdmitAnswers(h, st.pending, e, Validate(h, st.resolved, e).action);
    }
  }

  // ----- every run -----

  lemma StandingStep(ts: seq<Turn>, t: Turn, token: string)
    ensures Standing(ts + [t], token) <==>
      if t.refused then Standing(ts, token)
      else token in t.asked || (t.answered.Some? && t.answered.value != token && Standing(ts, token))
  {
    var all := ts + [t];
    if !t.refused && token in t.asked { assert all[|ts|] == t && Undisturbed(all, |ts|, token); }
    if Standing(ts, token) && (t.refused || (t.answered.Some? && t.answered.value != token)) {
      var i :| 0 <= i < |ts| && !ts[i].refused && token in ts[i].asked && Undisturbed(ts, i, token);
      assert all[i] == ts[i] && Undisturbed(all, i, token);
    }
    if Standing(all, token) {
      var i :| 0 <= i < |all| && !all[i].refused && token in all[i].asked && Undisturbed(all, i, token);
      if i < |ts| {
        assert all[|ts|] == t;
        assert ts[i] == all[i];
        forall j | i < j < |ts| && !ts[j].refused ensures ts[j].answered.Some? && ts[j].answered.value != token {
          assert all[j] == ts[j];
        }
        assert Undisturbed(ts, i, token);
      }
    }
  }

  /** After every run from no questions, a token is pending exactly when it was asked since the last
      admitted event that is not an answer, and has not been consumed since. */
  lemma {:induction false} PendingIsStanding(su: Setup, st: LoopState, events: seq<Event>, token: string)
    requires st.pending == []
    ensures token in After(su, st, events).pending <==> Standing(Turns(su, st, events), token)
    decreases |events|
  {
    if events != [] {
      var n := |events| - 1;
      var before, front := After(su, st, events[..n]), Turns(su, st, events[..n]);
      PendingIsStanding(su, st, events[..n], token);
      var e := events[n];
      StandingStep(front, TurnOf(e, Handle(su, before, e).1), token);
      if Handle(su, before, e).1.rejected.Some? {
        RefusedChangesNothing(su, before, e);
      } else {
        AdmittedPending(su, before, e);
      }
    }
  }

  /** An answer is admitted only if its question was asked since the last admitted event that is not an
      answer, and not consumed since. */
  lemma AnswersOnlyStandingQuestions(su: Setup, st: LoopState, events: seq<Event>, e: Event)
    requires st.pending == [] && AnswerOf(e).Some?
    requires Handle(su, After(su, st, events), e).1.rejected.None?
    ensures Standing(Turns(su, st, events), AnswerOf(e).value.0)
  {
    AdmittedAnswerIsPending(su, After(su, st, events), e);
    PendingIsStanding(su, st, events, AnswerOf(e).value.0);
  }

  // ----- pending tokens address questions -----

  /** The tree on show keeps the fixed tree's handlers. */
  ghost predicate Faithful(su: Setup, resolved: PNode)
  {
    forall id :: HandlerAt(GetNode(resolved, id)) == HandlerAt(GetNode(su.base, id))
  }

  ghost predicate AsksSomewhere(su: Setup, token: string)
  {
    exists id, name, action :: HandlerAt(GetNode(su.base, id)) == Some((name, action)) && Minted(id, action, token)
  }

  ghost predicate LoopOk(su: Setup, st: LoopState)
  {
    Faithful(su, st.resolved) && forall t :: t in st.pending ==> AsksSomewhere(su, t)
  }

  lemma ResolvedFaithful(su: Setup, store: Store)
    ensures Faithful(su, ResolveTree(su.host, store, su.base))
  {
    forall id ensures HandlerAt(GetNode(ResolveTree(su.host, store, su.base), id)) == HandlerAt(GetNode(su.base, id)) {
      ResolveKeepsHandlers(su.host, store, su.base, id);
    }
  }

  lemma FirstOk(su: Setup, store: Store)
    ensures LoopOk(su, LoopState(store, FirstResolved(su, store), []))
  {
    ResolvedFaithful(su, Seeded(su.host, su.base, store));
  }

  /** What is admitted folds at a place inside its node's action: the whole of it, or, for an answer, the
      continuation it selects of a pending question. */
  ghost predicate Place(h: Host, pending: seq<string>, e: Event, root: Action, act: Action, place: seq<Segment>)
  {
    At(root, place) == Some(act)
    && match AnswerOf(e)
       case None => place == []
       case Some((token, accepted)) =>
         place != [] && token in pending && place[|place| - 1] == (if accepted then OnConfirm else OnCancel)
         && var asked := place[..|place| - 1];
            At(root, asked).Some? && At(root, asked).value.Confirm? && token == ConfirmToken(e.nodeId, PathText(asked))
  }

  lemma AdmittedPlace(h: Host, pending: seq<string>, e: Event, root: Action) returns (place: seq<Segment>)
    requires Admit(h, pending, e, root).Admitted? && Admit(h, pending, e, root).work.action.Some?
    ensures var w := Admit(h, pending, e, root).work;
      Place(h, pending, e, root, w.action.value, place) && PathText(place) == w.path
  {
    match AnswerOf(e)
    case None =>
      place := [];
    case Some((token, accepted)) =>
      var asked := AddressedPlace(e.nodeId, token, root);
      var s := if accepted then OnConfirm else OnCancel;
      place := asked + [s];
      assert place[..|place| - 1] == asked;
      AtSnoc(root, asked, s);
      BranchPathText(asked, s);
  }

  lemma StepKeepsLoop(su: Setup, st: LoopState, e: Event)
    requires LoopOk(su, st)
    ensures LoopOk(su, Handle(su, st, e).0)
  {
    var (after, out) := Handle(su, st, e);
    if out.rejected.None? && Validate(su.host, st.resolved, e).Acts? {
      ResolvedFaithful(su, after.store);
      AdmittedPending(su, st, e);
      forall t | t in after.pending ensures AsksSomewhere(su, t) {
        if t in Asked(out.effects) { AskedSomewhere(su, st, e, t); }
      }
    }
  }

  /** An admitted event whose node acts reaches the effects of what it was admitted to do. */
  lemma AdmittedEffects(su: Setup, st: LoopState, e: Event)
    requires Handle(su, st, e).1.rejected.None? && Handle(su, st, e).1.effects != []
    ensures Validate(su.host, st.resolved, e).Acts?
    ensures Admit(su.host, st.pending, e, Validate(su.host, st.resolved, e).action).Admitted?
    ensures var w := Admit(su.host, st.pending, e, Validate(su.host, st.resolved, e).action).work;
      w.action.Some?
      && Handle(su, st, e).1.effects
      == Fold(su.host, Flush(su.base, e.payload), e.nodeId, w.action.value, w.path, st.store).effects
  {
  }

  lemma AskedSomewhere(su: Setup, st: LoopState, e: Event, t: string)
    requires LoopOk(su, st) && Handle(su, st, e).1.rejected.None? && t in Asked(Handle(su, st, e).1.effects)
    ensures AsksSomewhere(su, t)
  {
    AdmittedEffects(su, st, e);
    var h := su.host;
    var action := Validate(h, st.resolved, e).action;
    var w := Admit(h, st.pending, e, action).work;
    var path := AdmittedPlace(h, st.pending, e, action);
    var effect :| effect in Handle(su, st, e).1.effects && effect.Ask? && effect.token == t;
    FoldAsks(h, Flush(su.base, e.payload), e.nodeId, action, w.action.value, path, st.store, effect);
    assert HandlerAt(GetNode(st.resolved, e.nodeId)) == HandlerAt(GetNode(su.base, e.nodeId));
    assert HandlerAt(GetNode(su.base, e.nodeId)) == Some((e.name, action));
  }

  lemma {:induction false} EveryRunKeepsLoop(su: Setup, store: Store, events: seq<Event>)
    ensures LoopOk(su, After(su, LoopState(store, FirstResolved(su, store), []), events))
    decreases |events|
  {
    FirstOk(su, store);
    if events != [] {
      var n := |events| - 1;
      EveryRunKeepsLoop(su, store, events[..n]);
      StepKeepsLoop(su, After(su, LoopState(store, FirstResolved(su, store), []), events[..n]), events[n]);
    }
  }

  /** After every run, every pending token still addresses a question in its node's action. */
  lemma PendingStillAddresses(su: Setup, store: Store, events: seq<Event>, token: string)
    returns (id: string, action: Action)
    requires token in After(su, LoopState(store, FirstResolved(su, store), []), events).pending
    ensures HandlerAt(GetNode(After(su, LoopState(store, FirstResolved(su, store), []), events).resolved, id)).Some?
    ensures HandlerAt(GetNode(After(su, LoopState(store, FirstResolved(su, store), []), events).resolved,
      id)).value.1 == action
    ensures AddressedAt(id, token, action).Some?
  {
    var st := After(su, LoopState(store, FirstResolved(su, store), []), events);
    EveryRunKeepsLoop(su, store, events);
    assert AsksSomewhere(su, token);
    var i, name, a :| HandlerAt(GetNode(su.base, i)) == Some((name, a)) && Minted(i, a, token);
    var path :| At(a, path).Some? && At(a, path).value.Confirm? && token == ConfirmToken(i, PathText(path));
    TokenRoundTrip(i, path, a);
    id, action := i, a;
    assert HandlerAt(GetNode(st.resolved, id)) == HandlerAt(GetNode(su.base, id));
  }

  // ----- what a step may write -----

  /** The event folds `act`, found at `place` in the action its node handles it with, and the dispatch gate
      permitted that action and every commit write it flushes. */
  ghost predicate Gated(su: Setup, st: LoopState, e: Event, act: Action, place: seq<Segment>)
  {
    var handler := HandlerAt(GetNode(st.resolved, e.nodeId));
    handler.Some? && handler.value.0 == e.name && su.host.canDispatch(handler.value.1)
    && Place(su.host, st.pending, e, handler.value.1, act, place)
    && su.host.canDispatch(act) && AllPermitted(su.host, CommitWrites(su.host, Flush(su.base, e.payload), act))
  }

  ghost predicate FoldsGated(su: Setup, st: LoopState, e: Event, act: Action, place: seq<Segment>)
  {
    var (after, out) := Handle(su, st, e);
    var o := Fold(su.host, Flush(su.base, e.payload), e.nodeId, act, PathText(place), st.store);
    Gated(su, st, e, act, place) && after.store == o.store && out.effects == o.effects
  }

  /** An admitted event either folds nothing, or is the fold of one action of its node that met the gate,
      as did every commit write in it. */
  lemma AdmittedIsGated(su: Setup, st: LoopState, e: Event)
    requires Handle(su, st, e).1.rejected.None?
    ensures (Handle(su, st, e).0.store == st.store && Handle(su, st, e).1.effects == [])
            || exists act, place :: FoldsGated(su, st, e, act, place)
  {
    var h := su.host;
    if Validate(h, st.resolved, e).Acts? {
      var root := Validate(h, st.resolved, e).action;
      var w := Admit(h, st.pending, e, root).work;
      if w.action.Some? {
        var place := AdmittedPlace(h, st.pending, e, root);
        assert h.canDispatch(w.action.value);
        assert FoldsGated(su, st, e, w.action.value, place);
      }
    }
  }

  /** The action folded names the key in a state write of its own, or in one of its commit writes. */
  ghost predicate Names(su: Setup, e: Event, act: Action, key: string)
  {
    key in SetKeys(act) || WrittenBy(CommitWrites(su.host, Flush(su.base, e.payload), act), key)
  }

  /** Every key a step changes is outside the reserved namespace, and named by the action the step folds,
      which met the gate with each of its commit writes. */
  lemma WritesAreGated(su: Setup, st: LoopState, e: Event, key: string)
    requires !SameAt(st.store, Handle(su, st, e).0.store, key)
    ensures !Reserved(key)
    ensures exists act, place :: Gated(su, st, e, act, place) && Names(su, e, act, key)
  {
    if Handle(su, st, e).1.rejected.Some? { RefusedChangesNothing(su, st, e); }
    AdmittedIsGated(su, st, e);
    var act, place :| FoldsGated(su, st, e, act, place);
    FoldWrites(su.host, Flush(su.base, e.payload), e.nodeId, act, PathText(place), st.store, key);
    assert Gated(su, st, e, act, place) && Names(su, e, act, key);
  }

  /** Over every run: a key whose value the run changed was changed by some event of it, which folded an
      action that names the key and met the gate with each of its commit writes. */
  lemma {:induction false} EveryRunsWritesAreGated(su: Setup, st: LoopState, events: seq<Event>, key: string)
    returns (n: nat)
    requires !SameAt(st.store, After(su, st, events).store, key)
    ensures !Reserved(key) && n < |events|
    ensures !SameAt(After(su, st, events[..n]).store, After(su, st, events[..n + 1]).store, key)
    ensures exists act, place ::
              Gated(su, After(su, st, events[..n]), events[n], act, place) && Names(su, events[n], act, key)
    decreases |events|
  {
    n := |events| - 1;
    var before := After(su, st, events[..n]);
    if !SameAt(before.store, After(su, st, events).store, key) {
      assert events[..n + 1] == events;
      WritesAreGated(su, before, events[n], key);
    } else {
      var m := EveryRunsWritesAreGated(su, st, events[..n], key);
      assert events[..n][..m] == events[..m] && events[..n][..m + 1] == events[..m + 1];
      assert events[..n][m] == events[m];
      n := m;
    }
  }

  /** No run ever writes, changes or removes a reserved key. */
  lemma {:induction false} ReservedKeysAreNeverWritten(su: Setup, st: LoopState, events: seq<Event>, key: string)
    requires Reserved(key)
    ensures SameAt(st.store, After(su, st, events).store, key)
    decreases |events|
  {
    if events != [] {
      var n := |events| - 1;
      ReservedKeysAreNeverWritten(su, st, events[..n], key);
      var before := After(su, st, events[..n]);
      if !SameAt(before.store, Handle(su, before, events[n]).0.store, key) {
        WritesAreGated(su, before, events[n], key);
      }
    }
  }
}
