/** The session protocol as a transition system: many activations, one shared store, steps that
    interleave and crash anywhere. */
module EdgeProtocol {
  import opened Trees
  import opened TreeOps
  import opened Chain
  import opened Edge

  /** Where one activation stands between two of its steps. */
  datatype Phase =
    | Owning                                                   // token taken, nothing read
    | Read(journal: seq<OpRecord>)                             // journal read and verified
    | Live(stream: seq<OpRecord>, tree: Node)                  // rehydrated, or an op adopted
    | Proposed(stream: seq<OpRecord>, tree: Node, record: OpRecord, next: Node)   // op applied, record built
    | Written(stream: seq<OpRecord>, tree: Node, record: OpRecord, next: Node)    // append acknowledged
    | Halted                                                  // refused, or could not rehydrate

  datatype Activation = Activation(session: string, token: nat, phase: Phase)

  datatype Fleet = Fleet(sessions: Sessions, active: map<nat, Activation>)

  /** The runtime, and the tree each session begins life with. */
  datatype World = World(rt: Runtime, seed: string -> Node)

  datatype Step =
    | Acquire(who: nat, session: string)
    | ReadJournal(who: nat)
    | Rehydrate(who: nat)
    | Propose(who: nat, op: TreeOp, timestamp: int, actor: Actor, promptId: Option<string>)
    | Append(who: nat)
    | Adopt(who: nat)
    | Snapshot(who: nat)
    | Crash(who: nat)

  function With(s: Fleet, who: nat, phase: Phase): Fleet
    requires who in s.active
  {
    s.(active := s.active[who := s.active[who].(phase := phase)])
  }

  /** Whether a step can be taken. */
  predicate Enabled(s: Fleet, step: Step)
  {
    match step
    case Acquire(who, _) => who !in s.active
    case ReadJournal(who) => who in s.active && s.active[who].phase.Owning?
    case Rehydrate(who) => who in s.active && s.active[who].phase.Read?
    case Propose(who, _, _, _, _) => who in s.active && s.active[who].phase.Live?
    case Append(who) => who in s.active && s.active[who].phase.Proposed?
    case Adopt(who) => who in s.active && s.active[who].phase.Written?
    case Snapshot(who) => who in s.active && s.active[who].phase.Live?
    case Crash(who) => who in s.active
  }

  /** The state a step leads to, each the matching fragment of the session's methods. */
  ghost function Taken(w: World, s: Fleet, step: Step): Fleet
    requires Enabled(s, step)
  {
    match step
    case Acquire(who, id) =>
      var sessions := Acquired(s.sessions, id);
      Fleet(sessions, s.active[who := Activation(id, sessions[id].activation, Owning)])
    case ReadJournal(who) =>
      var journal := SessionOf(s.sessions, s.active[who].session).records;
      With(s, who, if Verified(w.rt.hasher, journal) then Read(journal) else Halted)
    case Rehydrate(who) =>
      var a := s.active[who];
      if !Verified(w.rt.hasher, a.phase.journal) then With(s, who, Halted)
      else
        var tree := Rehydrated(w.rt, w.rt.codec.encode(w.seed(a.session)), a.phase.journal,
          SessionOf(s.sessions, a.session).checkpoint);
        With(s, who, if tree.Error? then Halted else Live(a.phase.journal, tree.value))
    case Propose(who, op, timestamp, actor, promptId) =>
      var p := s.active[who].phase;
      var next := TreeOps.Apply(w.rt.tables, p.tree, op);
      if next.Err? then s
      else
        var record := NextRecord(w.rt.hasher, p.stream, op, timestamp, actor, promptId, Success);
        With(s, who, Proposed(p.stream, p.tree, record, next.value))
    case Append(who) =>
      var a := s.active[who];
      var p := a.phase;
      var refused := AppendRefusal(s.sessions, a.session, a.token, p.record).Some?;
      With(s.(sessions := Appended(s.sessions, a.session, a.token, p.record)), who,
           if refused then Live(p.stream, p.tree) else Written(p.stream, p.tree, p.record, p.next))
    case Adopt(who) =>
      var p := s.active[who].phase;
      With(s, who, Live(p.stream + [p.record], p.next))
    case Snapshot(who) =>
      var a := s.active[who];
      var c := Checkpoint(|a.phase.stream|, w.rt.codec.encode(a.phase.tree));
      s.(sessions := Checkpointed(s.sessions, a.session, a.token, c))
    case Crash(who) => s.(active := s.active - {who})
  }

  const START := Fleet(map[], map[])

  /** A run: the states reached by a list of steps, each enabled where it is taken. */
  ghost predicate Reaches(w: World, steps: seq<Step>, s: Fleet)
    decreases |steps|
  {
    if steps == [] then s == START
    else
      var last := steps[|steps| - 1];
      exists t :: Reaches(w, steps[..|steps| - 1], t) && Enabled(t, last) && s == Taken(w, t, last)
  }

  // ----- what every reachable state keeps -----

  /** The tree the session's records fold to from its seed. */
  ghost function Folded(w: World, id: string, records: seq<OpRecord>): Replayed
  {
    Fold(w.rt.tables, w.seed(id), records)
  }

  ghost predicate CheckpointOk(w: World, id: string, state: SessionState)
  {
    state.checkpoint.Some? ==>
      var c := state.checkpoint.value;
      c.throughSequence <= |state.records|
      && w.rt.codec.decode(c.treeJson).Some?
      && Folded(w, id, state.records[..c.throughSequence]) == Replayed(w.rt.codec.decode(c.treeJson).value)
  }

  /** The journal is a verified chain whose ops all apply from the seed, and the checkpoint is the
      fold of its prefix. */
  ghost predicate SessionOk(w: World, id: string, state: SessionState)
  {
    Verified(w.rt.hasher, state.records) && Folded(w, id, state.records).Replayed? && CheckpointOk(w, id, state)
  }

  /** The newest activation knows the whole journal, and holds what it folds to. */
  ghost predicate OwnerOk(w: World, id: string, state: SessionState, phase: Phase)
  {
    match phase
    case Owning => true
    case Read(journal) => journal == state.records
    case Live(stream, tree) => stream == state.records && Folded(w, id, state.records) == Replayed(tree)
    case Proposed(stream, tree, record, next) =>
      stream == state.records && Folded(w, id, state.records) == Replayed(tree)
      && TreeOps.Apply(w.rt.tables, tree, record.op) == Ok(next)
      && Verified(w.rt.hasher, stream + [record])
    case Written(stream, tree, record, next) =>
      state.records == stream + [record] && Folded(w, id, state.records) == Replayed(next)
    case Halted => false
  }

  ghost predicate ActivationOk(w: World, s: Fleet, a: Activation)
  {
    a.session in s.sessions && 1 <= a.token <= s.sessions[a.session].activation
    && (a.token == s.sessions[a.session].activation ==> OwnerOk(w, a.session, s.sessions[a.session], a.phase))
  }

  ghost predicate Inv(w: World, s: Fleet)
  {
    (forall id :: id in s.sessions ==> SessionOk(w, id, s.sessions[id]))
    && (forall p :: p in s.active ==> ActivationOk(w, s, s.active[p]))
    && (forall p, q :: p in s.active && q in s.active && p != q && s.active[p].session == s.active[q].session
          ==> s.active[p].token != s.active[q].token)
  }

  /** Rehydrating the journal in full from any checkpoint of its own gives the fold from the seed. */
  lemma RehydratesToFold(w: World, id: string, state: SessionState)
    requires RoundTrips(w.rt.codec) && SessionOk(w, id, state)
    ensures Folded(w, id, state.records).Replayed?
    ensures Rehydrated(w.rt, w.rt.codec.encode(w.seed(id)), state.records, state.checkpoint)
         == Done(Folded(w, id, state.records).tree)
  {
    var c := state.checkpoint;
    var n := if c.Some? then c.value.throughSequence else 0;
    AfterVerified(w.rt.hasher, state.records, n);
    assert state.records == state.records[..n] + state.records[n..];
    FoldConcat(w.rt.tables, w.seed(id), state.records[..n], state.records[n..]);
  }

  lemma NextFolds(w: World, id: string, records: seq<OpRecord>, r: OpRecord, tree: Node, next: Node)
    requires Folded(w, id, records) == Replayed(tree) && TreeOps.Apply(w.rt.tables, tree, r.op) == Ok(next)
    ensures Folded(w, id, records + [r]) == Replayed(next)
  {
    FoldSnoc(w.rt.tables, w.seed(id), records, r);
  }

  lemma FreshSequence(h: Hasher, records: seq<OpRecord>, r: OpRecord)
    requires Verified(h, records + [r])
    ensures !Journaled(records, r.sequence)
  {
    var all := records + [r];
    assert Links(h, all, |records|);
    forall i | 0 <= i < |records| ensures records[i].sequence != r.sequence {
      assert Links(h, all, i) && all[i] == records[i];
    }
  }

  lemma AppendedSession(w: World, id: string, state: SessionState, r: OpRecord, tree: Node, next: Node)
    requires SessionOk(w, id, state) && Verified(w.rt.hasher, state.records + [r])
    requires Folded(w, id, state.records) == Replayed(tree) && TreeOps.Apply(w.rt.tables, tree, r.op) == Ok(next)
    ensures SessionOk(w, id, state.(records := state.records + [r]))
    ensures Folded(w, id, state.records + [r]) == Replayed(next)
  {
    NextFolds(w, id, state.records, r, tree, next);
    if state.checkpoint.Some? {
      var n := state.checkpoint.value.throughSequence;
      assert (state.records + [r])[..n] == state.records[..n];
    }
  }

  lemma AcquireKeeps(w: World, s: Fleet, who: nat, id: string)
    requires Inv(w, s) && who !in s.active
    ensures Inv(w, Taken(w, s, Acquire(who, id)))
  {
    var t := Taken(w, s, Acquire(who, id));
    assert Folded(w, id, []).Replayed?;
    forall x | x in t.sessions ensures SessionOk(w, x, t.sessions[x]) {
      if x == id { assert SessionOk(w, id, SessionOf(s.sessions, id)); }
    }
    forall p | p in t.active ensures ActivationOk(w, t, t.active[p]) {
      if p != who { assert ActivationOk(w, s, s.active[p]); }
    }
    forall p, q | p in t.active && q in t.active && p != q && t.active[p].session == t.active[q].session
      ensures t.active[p].token != t.active[q].token
    {
      if p == who { assert ActivationOk(w, s, s.active[q]); }
      if q == who { assert ActivationOk(w, s, s.active[p]); }
    }
  }

  /** A step that leaves the store alone and moves one activation keeps the invariant if it keeps the owner's. */
  lemma PhaseKeeps(w: World, s: Fleet, who: nat, phase: Phase)
    requires Inv(w, s) && who in s.active
    requires var a := s.active[who];
      a.token == s.sessions[a.session].activation ==> OwnerOk(w, a.session, s.sessions[a.session], phase)
    ensures Inv(w, With(s, who, phase))
  {
    var t := With(s, who, phase);
    forall p | p in t.active ensures ActivationOk(w, t, t.active[p]) {
      assert ActivationOk(w, s, s.active[p]);
    }
  }

  lemma RehydrateKeeps(w: World, s: Fleet, who: nat)
    requires RoundTrips(w.rt.codec) && Inv(w, s) && Enabled(s, Rehydrate(who))
    ensures Inv(w, Taken(w, s, Rehydrate(who)))
  {
    var a := s.active[who];
    var state := s.sessions[a.session];
    if a.token == state.activation {
      RehydratesToFold(w, a.session, state);
    }
    PhaseKeeps(w, s, who, Taken(w, s, Rehydrate(who)).active[who].phase);
  }

  lemma ProposeKeeps(w: World, s: Fleet, step: Step)
    requires Inv(w, s) && step.Propose? && Enabled(s, step)
    ensures Inv(w, Taken(w, s, step))
  {
    var a := s.active[step.who];
    var p := a.phase;
    if TreeOps.Apply(w.rt.tables, p.tree, step.op).Ok? {
      var record := NextRecord(w.rt.hasher, p.stream, step.op, step.timestamp, step.actor, step.promptId, Success);
      AppendVerified(w.rt.hasher, p.stream, record);
      PhaseKeeps(w, s, step.who, Taken(w, s, step).active[step.who].phase);
    }
  }

  /** A write by the newest activation to its own session touches no other activation's standing. */
  lemma OwnerWriteKeeps(w: World, s: Fleet, who: nat, state: SessionState, phase: Phase)
    requires Inv(w, s) && who in s.active
    requires var a := s.active[who];
      a.token == s.sessions[a.session].activation && state.activation == a.token
      && SessionOk(w, a.session, state) && OwnerOk(w, a.session, state, phase)
    ensures var a := s.active[who];
      Inv(w, With(s.(sessions := s.sessions[a.session := state]), who, phase))
  {
    var a := s.active[who];
    var t := With(s.(sessions := s.sessions[a.session := state]), who, phase);
    forall p | p in t.active ensures ActivationOk(w, t, t.active[p]) {
      assert ActivationOk(w, s, s.active[p]);
    }
  }

  lemma AppendKeeps(w: World, s: Fleet, who: nat)
    requires Inv(w, s) && Enabled(s, Append(who))
    ensures Inv(w, Taken(w, s, Append(who)))
  {
    var a := s.active[who];
    var p := a.phase;
    assert ActivationOk(w, s, a);
    var state := s.sessions[a.session];
    if a.token == state.activation {
      FreshSequence(w.rt.hasher, state.records, p.record);
      AppendedSession(w, a.session, state, p.record, p.tree, p.next);
      OwnerWriteKeeps(w, s, who, state.(records := state.records + [p.record]),
          Written(p.stream, p.tree, p.record, p.next));
    } else {
      PhaseKeeps(w, s, who, Live(p.stream, p.tree));
    }
  }

  lemma SnapshotKeeps(w: World, s: Fleet, who: nat)
    requires RoundTrips(w.rt.codec) && Inv(w, s) && Enabled(s, Snapshot(who))
    ensures Inv(w, Taken(w, s, Snapshot(who)))
  {
    var a := s.active[who];
    assert ActivationOk(w, s, a);
    var state := s.sessions[a.session];
    if a.token == state.activation {
      var c := Checkpoint(|a.phase.stream|, w.rt.codec.encode(a.phase.tree));
      assert state.records[..|a.phase.stream|] == state.records;
      OwnerWriteKeeps(w, s, who, state.(checkpoint := Some(c)), a.phase);
      assert With(s.(sessions := s.sessions[a.session := state.(checkpoint := Some(c))]), who, a.phase)
          == Taken(w, s, Snapshot(who));
    }
  }

  lemma StepKeeps(w: World, s: Fleet, step: Step)
    requires RoundTrips(w.rt.codec) && Inv(w, s) && Enabled(s, step)
    ensures Inv(w, Taken(w, s, step))
  {
    match step
    case Acquire(who, id) => AcquireKeeps(w, s, who, id);
    case ReadJournal(who) => PhaseKeeps(w, s, who, Taken(w, s, step).active[who].phase);
    case Rehydrate(who) => RehydrateKeeps(w, s, who);
    case Propose(who, _, _, _, _) => ProposeKeeps(w, s, step);
    case Append(who) => AppendKeeps(w, s, who);
    case Adopt(who) => PhaseKeeps(w, s, who, Taken(w, s, step).active[who].phase);
    case Snapshot(who) => SnapshotKeeps(w, s, who);
    case Crash(who) =>
      var t := Taken(w, s, step);
      forall p | p in t.active ensures ActivationOk(w, t, t.active[p]) { assert ActivationOk(w, s, s.active[p]); }
  }

  /** Every state of every run is in order. */
  lemma {:induction false} EveryRunIsSafe(w: World, steps: seq<Step>, s: Fleet)
    requires RoundTrips(w.rt.codec) && Reaches(w, steps, s)
    ensures Inv(w, s)
    decreases |steps|
  {
    if steps != [] {
      var last := steps[|steps| - 1];
      var t :| Reaches(w, steps[..|steps| - 1], t) && Enabled(t, last) && s == Taken(w, t, last);
      EveryRunIsSafe(w, steps[..|steps| - 1], t);
      StepKeeps(w, t, last);
    }
  }

  // ----- what that means -----

  /** A superseded activation's steps never change the store. */
  lemma SupersededWritesNothing(w: World, steps: seq<Step>, s: Fleet, step: Step)
    requires RoundTrips(w.rt.codec) && Reaches(w, steps, s) && Enabled(s, step) && !step.Acquire?
    requires s.active[step.who].token != SessionOf(s.sessions, s.active[step.who].session).activation
    ensures Taken(w, s, step).sessions == s.sessions
  {
    EveryRunIsSafe(w, steps, s);
  }

  /** One step grows a journal by at most one record, written by its newest activation, and no step
      ever shortens or rewrites one. */
  lemma JournalsOnlyGrow(w: World, s: Fleet, step: Step, id: string)
    requires Inv(w, s) && Enabled(s, step)
    ensures var before, after := SessionOf(s.sessions, id).records, SessionOf(Taken(w, s, step).sessions, id).records;
      after == before
      || (step.Append? && s.active[step.who].session == id && s.active[step.who].token == s.sessions[id].activation
          && after == before + [s.active[step.who].phase.record])
  {
  }

  /** The newest activation, once live, holds exactly the replay of the whole journal. */
  lemma NewestHoldsReplay(w: World, steps: seq<Step>, s: Fleet, who: nat)
    requires RoundTrips(w.rt.codec) && Reaches(w, steps, s) && who in s.active && s.active[who].phase.Live?
    requires s.active[who].token == SessionOf(s.sessions, s.active[who].session).activation
    ensures var a := s.active[who];
      var journal := SessionOf(s.sessions, a.session).records;
      Fold(w.rt.tables, w.seed(a.session), journal) == Replayed(a.phase.tree) && a.phase.stream == journal
  {
    EveryRunIsSafe(w, steps, s);
    assert ActivationOk(w, s, s.active[who]);
  }

  /** The newest activation is never refused: not its rehydration, and not its writes. */
  lemma NewestNeverStops(w: World, steps: seq<Step>, s: Fleet, who: nat)
    requires RoundTrips(w.rt.codec) && Reaches(w, steps, s) && who in s.active
    requires s.active[who].token == SessionOf(s.sessions, s.active[who].session).activation
    ensures !s.active[who].phase.Halted?
    ensures s.active[who].phase.Proposed? ==> Taken(w, s, Append(who)).active[who].phase.Written?
  {
    EveryRunIsSafe(w, steps, s);
    var a := s.active[who];
    assert ActivationOk(w, s, a);
    if a.phase.Proposed? {
      FreshSequence(w.rt.hasher, s.sessions[a.session].records, a.phase.record);
    }
  }

  /** Dropping a session's checkpoint changes no rehydrated tree: both are the fold from the seed. */
  lemma CheckpointsAreOptional(w: World, steps: seq<Step>, s: Fleet, id: string)
    requires RoundTrips(w.rt.codec) && Reaches(w, steps, s) && id in s.sessions
    ensures Verified(w.rt.hasher, s.sessions[id].records)
    ensures var seed, state := w.rt.codec.encode(w.seed(id)), s.sessions[id];
      Rehydrated(w.rt, seed, state.records, state.checkpoint) == Rehydrated(w.rt, seed, state.records, None)
      && Rehydrated(w.rt, seed, state.records, None).Done?
      && Fold(w.rt.tables, w.seed(id), state.records) == Replayed(Rehydrated(w.rt, seed, state.records, None).value)
  {
    EveryRunIsSafe(w, steps, s);
    var state := s.sessions[id];
    assert SessionOk(w, id, state);
    RehydratesToFold(w, id, state);
    RehydratesToFold(w, id, state.(checkpoint := None));
  }

  /** An acknowledged op survives everything: it stays in the journal, in place, in every later state. */
  lemma {:induction false} AcknowledgedSurvives(w: World, steps: seq<Step>, s: Fleet, more: seq<Step>, t: Fleet,
                                                id: string)
    requires RoundTrips(w.rt.codec) && Reaches(w, steps, s) && Continues(w, s, more, t)
    ensures SessionOf(s.sessions, id).records <= SessionOf(t.sessions, id).records
    decreases |more|
  {
    EveryRunIsSafe(w, steps, s);
    SurvivesFrom(w, s, more, t, id);
  }

  ghost predicate Continues(w: World, s: Fleet, more: seq<Step>, t: Fleet)
    decreases |more|
  {
    if more == [] then s == t else Enabled(s, more[0]) && Continues(w, Taken(w, s, more[0]), more[1..], t)
  }

  lemma {:induction false} SurvivesFrom(w: World, s: Fleet, more: seq<Step>, t: Fleet, id: string)
    requires RoundTrips(w.rt.codec) && Inv(w, s) && Continues(w, s, more, t)
    ensures SessionOf(s.sessions, id).records <= SessionOf(t.sessions, id).records
    decreases |more|
  {
    if more != [] {
      JournalsOnlyGrow(w, s, more[0], id);
      StepKeeps(w, s, more[0]);
      SurvivesFrom(w, Taken(w, s, more[0]), more[1..], t, id);
    }
  }
}
