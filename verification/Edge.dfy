/** The durable session: the reference store with its fence, and one activation over it. */
module Edge {
  import opened Trees
  import opened TreeOps
  import opened Chain

  datatype Checkpoint = Checkpoint(throughSequence: nat, treeJson: string)

  datatype SessionState = SessionState(activation: nat, records: seq<OpRecord>, checkpoint: Option<Checkpoint>)

  type Sessions = map<string, SessionState>

  datatype StoreError = NotOwner(held: nat, presented: nat) | Unavailable | Corrupt

  datatype EdgeError =
    | DecodeFailed
    | Refused(refusal: ApplyError)
    | StoreFailed(store: StoreError)
    | ChainBroken(broken: VerificationError)
    | ReplayFailed(sequence: nat, stopped: ApplyError)

  datatype Outcome<+T, +E> = Done(value: T) | Error(error: E)

  /** The wire codec; the protocol needs only that decoding a tree undoes encoding it. */
  datatype Codec = Codec(encode: Node -> string, decode: string -> Option<Node>, decodeOp: string -> Option<TreeOp>)

  /** What every activation of a runtime shares. */
  datatype Runtime = Runtime(tables: FieldTables, hasher: Hasher, codec: Codec)

  ghost predicate RoundTrips(c: Codec)
  {
    forall n :: c.decode(c.encode(n)) == Some(n)
  }

  // ----- the store's operations on its session map -----

  const NO_SESSION := SessionState(0, [], None)

  function SessionOf(sessions: Sessions, id: string): SessionState
  {
    if id in sessions then sessions[id] else NO_SESSION
  }

  function Acquired(sessions: Sessions, id: string): Sessions
  {
    sessions[id := SessionOf(sessions, id).(activation := SessionOf(sessions, id).activation + 1)]
  }

  predicate Journaled(records: seq<OpRecord>, sequence: nat)
  {
    exists r :: r in records && r.sequence == sequence
  }

  /** Why an append is refused, if it is. */
  function AppendRefusal(sessions: Sessions, id: string, token: nat, record: OpRecord): Option<StoreError>
  {
    var held := SessionOf(sessions, id).activation;
    if held != token then Some(NotOwner(held, token))
    else if id !in sessions then Some(Corrupt)
    else if Journaled(sessions[id].records, record.sequence) then Some(Corrupt)
    else None
  }

  function Appended(sessions: Sessions, id: string, token: nat, record: OpRecord): Sessions
  {
    if AppendRefusal(sessions, id, token, record).Some? then sessions
    else sessions[id := sessions[id].(records := sessions[id].records + [record])]
  }

  function CheckpointRefusal(sessions: Sessions, id: string, token: nat): Option<StoreError>
  {
    var held := SessionOf(sessions, id).activation;
    if held != token then Some(NotOwner(held, token)) else if id !in sessions then Some(Corrupt) else None
  }

  function Checkpointed(sessions: Sessions, id: string, token: nat, c: Checkpoint): Sessions
  {
    if CheckpointRefusal(sessions, id, token).Some? then sessions
    else sessions[id := sessions[id].(checkpoint := Some(c))]
  }

  class DurableStore {
    var sessions: Sessions

    constructor ()
      ensures sessions == map[]
    {
      sessions := map[];
    }

    method Acquire(id: string) returns (token: nat)
      modifies this
      ensures sessions == Acquired(old(sessions), id) && token == sessions[id].activation
    {
      var state := if id in sessions then sessions[id] else NO_SESSION;
      token := state.activation + 1;
      sessions := sessions[id := state.(activation := token)];
    }

    method Journal(id: string) returns (records: seq<OpRecord>)
      ensures records == SessionOf(sessions, id).records
    {
      records := if id in sessions then sessions[id].records else [];
    }

    method LatestCheckpoint(id: string) returns (c: Option<Checkpoint>)
      ensures c == SessionOf(sessions, id).checkpoint
    {
      c := if id in sessions then sessions[id].checkpoint else None;
    }

    method Append(id: string, token: nat, record: OpRecord) returns (r: Option<StoreError>)
      modifies this
      ensures r == AppendRefusal(old(sessions), id, token, record)
      ensures sessions == Appended(old(sessions), id, token, record)
    {
      var held := if id in sessions then sessions[id].activation else 0;
      if held != token {
        return Some(NotOwner(held, token));
      }
      if id !in sessions {
        return Some(Corrupt);
      }
      var records := sessions[id].records;
      for i := 0 to |records|
        invariant forall k :: 0 <= k < i ==> records[k].sequence != record.sequence
      {
        if records[i].sequence == record.sequence {
          assert records[i] in records;
          return Some(Corrupt);
        }
      }
      sessions := sessions[id := sessions[id].(records := records + [record])];
      r := None;
    }

    method PutCheckpoint(id: string, token: nat, c: Checkpoint) returns (r: Option<StoreError>)
      modifies this
      ensures r == CheckpointRefusal(old(sessions), id, token)
      ensures sessions == Checkpointed(old(sessions), id, token, c)
    {
      var held := if id in sessions then sessions[id].activation else 0;
      if held != token {
        return Some(NotOwner(held, token));
      }
      if id !in sessions {
        return Some(Corrupt);
      }
      sessions := sessions[id := sessions[id].(checkpoint := Some(c))];
      r := None;
    }
  }

  // ----- rehydration -----

  /** The records past a sequence, in journal order. */
  function After(records: seq<OpRecord>, sequence: nat): seq<OpRecord>
    decreases |records|
  {
    if records == [] then []
    else
      var front, last := After(records[..|records| - 1], sequence), records[|records| - 1];
      if last.sequence > sequence then front + [last] else front
  }

  /** What an activation that read this journal and this checkpoint holds, or why it cannot. */
  ghost function Rehydrated(rt: Runtime, seedJson: string, records: seq<OpRecord>,
                            checkpoint: Option<Checkpoint>): Outcome<Node, EdgeError>
    requires Verified(rt.hasher, records)
  {
    var base := rt.codec.decode(if checkpoint.Some? then checkpoint.value.treeJson else seedJson);
    var from := if checkpoint.Some? then checkpoint.value.throughSequence else 0;
    if base.None? then Error(DecodeFailed)
    else
      var folded := Fold(rt.tables, base.value, After(records, from));
      if folded.Stopped? then Error(ReplayFailed(folded.sequence, folded.error)) else Done(folded.tree)
  }

  lemma {:induction false} AfterVerified(h: Hasher, records: seq<OpRecord>, from: nat)
    requires Verified(h, records)
    ensures After(records, from) == if from <= |records| then records[from..] else []
    decreases |records|
  {
    if records != [] {
      var n := |records| - 1;
      PrefixLinks(h, records, n);
      AfterVerified(h, records[..n], from);
      assert Links(h, records, n);
      if from <= n {
        assert records[from..] == records[..n][from..] + [records[n]];
      }
    }
  }

  // ----- one activation -----

  /** One activation of a session: the held tree, the journal it knows, and the store it owns. */
  class EdgeSession {
    const rt: Runtime
    const id: string
    const activation: nat
    const actor: Actor
    const store: DurableStore
    var stream: OpStream
    var tree: Node

    constructor (rt: Runtime, id: string, activation: nat, actor: Actor, store: DurableStore, stream: OpStream,
                 tree: Node)
      ensures this.rt == rt && this.id == id && this.activation == activation && this.actor == actor
      ensures this.store == store && this.stream == stream && this.tree == tree
    {
      this.rt, this.id, this.activation, this.actor := rt, id, activation, actor;
      this.store, this.stream, this.tree := store, stream, tree;
    }

    /** Take the token first, then read and verify the journal, then fold it onto the newest checkpoint. */
    static method Activate(rt: Runtime, store: DurableStore, id: string, seedJson: string, actor: Actor)
      returns (r: Outcome<EdgeSession, EdgeError>)
      modifies store
      ensures store.sessions == Acquired(old(store.sessions), id)
      ensures var state := SessionOf(old(store.sessions), id);
        if !Verified(rt.hasher, state.records) then r.Error? && r.error.ChainBroken?
        else match Rehydrated(rt, seedJson, state.records, state.checkpoint)
          case Error(e) => r == Error(e)
          case Done(tree) =>
            r.Done? && fresh(r.value) && r.value.tree == tree && r.value.stream.records == state.records
            && r.value.rt == rt && r.value.id == id && r.value.store == store && r.value.actor == actor
            && r.value.activation == state.activation + 1
    {
      var token := store.Acquire(id);
      var records := store.Journal(id);
      var verified := VerifyChain(rt.hasher, records);
      if verified.Broken? {
        return Error(ChainBroken(verified.error));
      }
      var checkpoint := store.LatestCheckpoint(id);
      var base := rt.codec.decode(if checkpoint.Some? then checkpoint.value.treeJson else seedJson);
      var from := if checkpoint.Some? then checkpoint.value.throughSequence else 0;
      if base.None? {
        return Error(DecodeFailed);
      }
      var replayed := ReplayAfter(rt.tables, base.value, records, from);
      if replayed.Stopped? {
        return Error(ReplayFailed(replayed.sequence, replayed.error));
      }
      var stream := new OpStream.FromRecords(records);
      var session := new EdgeSession(rt, id, token, actor, store, stream, replayed.tree);
      r := Done(session);
    }

    /** Prove the op applies, append its record durably, and only then move the held tree. */
    method ApplyOp(opJson: string, timestamp: int, promptId: Option<string>) returns (r: Option<EdgeError>)
      modifies this, store
      ensures var op := rt.codec.decodeOp(opJson);
        var before := old(store.sessions);
        if op.None? then r == Some(DecodeFailed) && unchanged(this) && unchanged(store)
        else
          var applied := Apply(rt.tables, old(tree), op.value);
          var record := NextRecord(rt.hasher, old(stream.records), op.value, timestamp, actor, promptId, Success);
          if applied.Err? then r == Some(Refused(applied.error)) && unchanged(this) && unchanged(store)
          else
            store.sessions == Appended(before, id, activation, record)
            && match AppendRefusal(before, id, activation, record)
               case Some(e) => r == Some(StoreFailed(e)) && unchanged(this)
               case None => r == None && tree == applied.value && stream.records == old(stream.records) + [record]
    {
      var op := rt.codec.decodeOp(opJson);
      if op.None? {
        return Some(DecodeFailed);
      }
      var outcome, telemetry := ApplyTree(rt.tables, tree, op.value);
      if outcome.Err? {
        return Some(Refused(outcome.error));
      }
      var previousHash := stream.Head();
      var sequence := |stream.records| + 1;
      var hash := ComputeHash(rt.hasher, previousHash, op.value, sequence, timestamp, actor, promptId, Success);
      var record := OpRecord(sequence, op.value, timestamp, actor, promptId, Success, previousHash, hash);
      var refusal := store.Append(id, activation, record);
      if refusal.Some? {
        return Some(StoreFailed(refusal.value));
      }
      stream := new OpStream.FromRecords(stream.records + [record]);
      tree := outcome.value;
      r := None;
    }

    /** Snapshot the held tree at the current sequence. */
    method TakeCheckpoint() returns (r: Outcome<Checkpoint, EdgeError>)
      modifies store
      ensures var c := Checkpoint(|stream.records|, rt.codec.encode(tree));
        store.sessions == Checkpointed(old(store.sessions), id, activation, c)
        && match CheckpointRefusal(old(store.sessions), id, activation)
           case Some(e) => r == Error(StoreFailed(e))
           case None => r == Done(c)
    {
      var c := Checkpoint(|stream.records|, rt.codec.encode(tree));
      var refusal := store.PutCheckpoint(id, activation, c);
      if refusal.Some? {
        return Error(StoreFailed(refusal.value));
      }
      r := Done(c);
    }
  }

  /** Fold the records past a sequence onto a tree, in place. */
  method ReplayAfter(tables: FieldTables, base: Node, records: seq<OpRecord>, from: nat) returns (r: Replayed)
    ensures r == Fold(tables, base, After(records, from))
  {
    var tree := base;
    for i := 0 to |records|
      invariant Fold(tables, base, After(records[..i], from)) == Replayed(tree)
    {
      assert records[..i + 1][..i] == records[..i];
      if records[i].sequence > from {
        FoldSnoc(tables, base, After(records[..i], from), records[i]);
        var outcome, telemetry := ApplyTree(tables, tree, records[i].op);
        if outcome.Err? {
          r := Stopped(records[i].sequence, outcome.error);
          AfterPrefix(records, i + 1, from);
          var rest :| After(records, from) == After(records[..i + 1], from) + rest;
          FoldConcat(tables, base, After(records[..i + 1], from), rest);
          return;
        }
        tree := outcome.value;
      }
    }
    assert records[..|records|] == records;
    r := Replayed(tree);
  }

  lemma {:induction false} AfterPrefix(records: seq<OpRecord>, n: nat, from: nat)
    requires n <= |records|
    ensures exists rest :: After(records, from) == After(records[..n], from) + rest
    decreases |records|
  {
    if n == |records| {
      assert records[..n] == records && After(records, from) == After(records[..n], from) + [];
    } else {
      var m := |records| - 1;
      AfterPrefix(records[..m], n, from);
      assert records[..m][..n] == records[..n];
      var rest :| After(records[..m], from) == After(records[..n], from) + rest;
      if records[m].sequence > from {
        assert After(records, from) == After(records[..n], from) + (rest + [records[m]]);
      }
    }
  }
}
