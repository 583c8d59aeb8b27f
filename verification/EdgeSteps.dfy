/** The session's methods as composites of the protocol's steps: with nothing between them, each call moves
    the store and the session as its steps in turn move the fleet. */
module EdgeSteps {
  import opened Trees
  import opened TreeOps
  import opened Chain
  import opened Edge
  import opened EdgeProtocol

  /** A step where it can be taken, and nothing where it cannot. */
  ghost function Stepped(w: World, s: Fleet, step: Step): Fleet
  {
    if Enabled(s, step) then Taken(w, s, step) else s
  }

  ghost function Activated(w: World, s: Fleet, who: nat, id: string): Fleet
  {
    Stepped(w, Stepped(w, Stepped(w, s, Acquire(who, id)), ReadJournal(who)), Rehydrate(who))
  }

  ghost function OpApplied(w: World, s: Fleet, who: nat, op: TreeOp, timestamp: int, actor: Actor,
                           promptId: Option<string>): Fleet
  {
    Stepped(w, Stepped(w, Stepped(w, s, Propose(who, op, timestamp, actor, promptId)), Append(who)), Adopt(who))
  }

  /** The session is the live activation `who`, over the fleet's store. */
  ghost predicate Stands(w: World, s: Fleet, who: nat, e: EdgeSession)
    reads e, e.store, e.stream
  {
    e.rt == w.rt && e.store.sessions == s.sessions
    && who in s.active && s.active[who] == Activation(e.id, e.activation, Live(e.stream.records, e.tree))
  }

  /** An activation is the token taken, the journal read and the fold: it answers a session exactly when those
      steps end live, and that session stands where they end. */
  method ActivateInSteps(w: World, store: DurableStore, id: string, actor: Actor, ghost s: Fleet, ghost who: nat)
    returns (r: Outcome<EdgeSession, EdgeError>)
    requires who !in s.active && store.sessions == s.sessions
    modifies store
    ensures var after := Activated(w, s, who, id);
      store.sessions == after.sessions && who in after.active
      && if r.Done? then r.value.store == store && Stands(w, after, who, r.value)
         else after.active[who].phase.Halted?
  {
    r := EdgeSession.Activate(w.rt, store, id, w.rt.codec.encode(w.seed(id)), actor);
  }

  /** An op applied is the record proposed, appended and adopted: whatever it answers, the session stands
      where those steps end, and it answers no error exactly when they add the record to what it knows. */
  method ApplyInSteps(w: World, e: EdgeSession, opJson: string, timestamp: int, promptId: Option<string>,
                      ghost s: Fleet, ghost who: nat) returns (r: Option<EdgeError>)
    requires Stands(w, s, who, e)
    modifies e, e.store
    ensures var op := w.rt.codec.decodeOp(opJson);
      if op.None? then r == Some(DecodeFailed) && Stands(w, s, who, e)
      else
        var after := OpApplied(w, s, who, op.value, timestamp, e.actor, promptId);
        Stands(w, after, who, e) && (r == None <==> e.stream.records != old(e.stream.records))
  {
    r := e.ApplyOp(opJson, timestamp, promptId);
  }

  /** A checkpoint taken is the snapshot step. */
  method CheckpointInSteps(w: World, e: EdgeSession, ghost s: Fleet, ghost who: nat)
    returns (r: Outcome<Checkpoint, EdgeError>)
    requires Stands(w, s, who, e)
    modifies e.store
    ensures Stands(w, Stepped(w, s, Snapshot(who)), who, e)
  {
    r := e.TakeCheckpoint();
  }
}
