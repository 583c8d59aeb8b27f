/** The op-stream hash chain, its verifier, and the replay of a stream into a tree. */
module Chain {
  import opened Trees
  import opened TreeOps

  datatype Actor = Human(name: string) | Agent(name: string) | System

  datatype OpResult = Success | Failure(code: string, message: string)

  datatype OpRecord = OpRecord(sequence: nat, op: TreeOp, timestamp: int, actor: Actor, promptId: Option<string>,
                               result: OpResult, previousHash: string, hash: string)

  /** What a record's pre-image carries besides the previous hash; `index` is the 0-based position. */
  datatype Entry = Entry(index: nat, op: TreeOp, timestamp: int, actor: Actor, promptId: Option<string>,
                         result: OpResult)

  /** The canonical pre-image of an entry and the hash link over it. */
  datatype Hasher = Hasher(payload: Entry -> string, link: (string, string) -> string)

  /** The previous hash of every stream's first record. */
  const GENESIS: string := "0000000000000000000000000000000000000000000000000000000000000000"

  ghost predicate Collisionless(h: Hasher)
  {
    (forall x, y :: h.payload(x) == h.payload(y) ==> x == y)
    && forall p, s, q, t :: h.link(p, s) == h.link(q, t) ==> p == q && s == t
  }

  function ComputeHash(h: Hasher, previousHash: string, op: TreeOp, sequence: nat, timestamp: int, actor: Actor,
                       promptId: Option<string>, result: OpResult): string
  {
    h.link(previousHash,
           h.payload(Entry(if sequence == 0 then 0 else sequence - 1, op, timestamp, actor, promptId, result)))
  }

  function RecomputeHash(h: Hasher, r: OpRecord): string
  {
    ComputeHash(h, r.previousHash, r.op, r.sequence, r.timestamp, r.actor, r.promptId, r.result)
  }

  /** The hash a next record links to. */
  function HeadOf(records: seq<OpRecord>): string
  {
    if records == [] then GENESIS else records[|records| - 1].hash
  }

  /** Record `i` sits in order, links to its predecessor and hashes to what it says. */
  predicate Links(h: Hasher, records: seq<OpRecord>, i: nat)
    requires i < |records|
  {
    records[i].sequence == i + 1
    && records[i].previousHash == HeadOf(records[..i])
    && records[i].hash == RecomputeHash(h, records[i])
  }

  predicate Verified(h: Hasher, records: seq<OpRecord>)
  {
    forall i :: 0 <= i < |records| ==> Links(h, records, i)
  }

  datatype VerificationError =
    | OutOfOrder(expectedSequence: nat, actualSequence: nat)
    | PreviousHashMismatch(sequence: nat, expected: string, actual: string)
    | HashMismatch(sequence: nat, expected: string, actual: string)

  datatype Verification = Intact | Broken(error: VerificationError)

  /** What the verifier reports of a record that does not link. */
  function BreakAt(h: Hasher, records: seq<OpRecord>, i: nat): VerificationError
    requires i < |records|
  {
    var r := records[i];
    if r.sequence != i + 1 then OutOfOrder(i + 1, r.sequence)
    else if r.previousHash != HeadOf(records[..i]) then PreviousHashMismatch(r.sequence, HeadOf(records[..i]),
      r.previousHash)
    else HashMismatch(r.sequence, RecomputeHash(h, r), r.hash)
  }

  /** Walk the chain from genesis: clean exactly when every record links, else the first that does not. */
  method VerifyChain(h: Hasher, records: seq<OpRecord>) returns (v: Verification)
    ensures v.Intact? <==> Verified(h, records)
    ensures v.Broken? ==> exists i :: 0 <= i < |records| && Verified(h, records[..i]) && !Links(h, records, i)
                                      && v.error == BreakAt(h, records, i)
  {
    var previousHash := GENESIS;
    for i := 0 to |records|
      invariant previousHash == HeadOf(records[..i])
      invariant forall k :: 0 <= k < i ==> Links(h, records, k)
    {
      var record := records[i];
      PrefixLinks(h, records, i);
      if record.sequence != i + 1 {
        assert !Links(h, records, i);
        return Broken(OutOfOrder(i + 1, record.sequence));
      }
      if record.previousHash != previousHash {
        assert !Links(h, records, i);
        return Broken(PreviousHashMismatch(record.sequence, previousHash, record.previousHash));
      }
      var recomputed := RecomputeHash(h, record);
      if recomputed != record.hash {
        assert !Links(h, records, i);
        return Broken(HashMismatch(record.sequence, recomputed, record.hash));
      }
      assert records[..i + 1][|records[..i + 1]| - 1] == record;
      previousHash := record.hash;
    }
    v := Intact;
  }

  /** Links of a prefix are links of the whole. */
  lemma PrefixLinks(h: Hasher, records: seq<OpRecord>, n: nat)
    requires n <= |records|
    ensures forall k :: 0 <= k < n ==> (Links(h, records, k) <==> Links(h, records[..n], k))
    ensures (forall k :: 0 <= k < n ==> Links(h, records, k)) <==> Verified(h, records[..n])
  {
    forall k | 0 <= k < n ensures Links(h, records, k) <==> Links(h, records[..n], k) {
      assert records[..n][..k] == records[..k];
    }
  }

  /** The record an append writes: next in order, linked to the head. */
  function NextRecord(h: Hasher, records: seq<OpRecord>, op: TreeOp, timestamp: int, actor: Actor,
                      promptId: Option<string>, result: OpResult): OpRecord
  {
    var previousHash, sequence := HeadOf(records), |records| + 1;
    OpRecord(sequence, op, timestamp, actor, promptId, result, previousHash,
             ComputeHash(h, previousHash, op, sequence, timestamp, actor, promptId, result))
  }

  /** Appending keeps a chain verified, and conversely a verified chain's records are appends. */
  lemma AppendVerified(h: Hasher, records: seq<OpRecord>, r: OpRecord)
    ensures Verified(h, records + [r]) <==>
      Verified(h, records) && r == NextRecord(h, records, r.op, r.timestamp, r.actor, r.promptId, r.result)
  {
    var all := records + [r];
    assert all[..|records|] == records;
    PrefixLinks(h, all, |records|);
    if Verified(h, all) {
      assert Links(h, all, |records|);
    }
    if Verified(h, records) && r == NextRecord(h, records, r.op, r.timestamp, r.actor, r.promptId, r.result) {
      forall i | 0 <= i < |all| ensures Links(h, all, i) {
        if i < |records| { assert Links(h, records, i); }
      }
    }
  }

  /** The head commits to the whole history: verified chains with one head are one chain. */
  lemma {:induction false} HeadDeterminesHistory(h: Hasher, xs: seq<OpRecord>, ys: seq<OpRecord>)
    requires Collisionless(h) && Verified(h, xs) && Verified(h, ys) && HeadOf(xs) == HeadOf(ys)
    requires forall i :: 0 <= i < |xs| ==> xs[i].hash != GENESIS
    requires forall i :: 0 <= i < |ys| ==> ys[i].hash != GENESIS
    ensures xs == ys
    decreases |xs|
  {
    if xs != [] && ys != [] {
      var i, j := |xs| - 1, |ys| - 1;
      var x, y := xs[i], ys[j];
      assert Links(h, xs, i) && Links(h, ys, j);
      assert h.link(x.previousHash, h.payload(Entry(i, x.op, x.timestamp, x.actor, x.promptId, x.result)))
          == h.link(y.previousHash, h.payload(Entry(j, y.op, y.timestamp, y.actor, y.promptId, y.result)));
      PrefixLinks(h, xs, i);
      PrefixLinks(h, ys, j);
      HeadDeterminesHistory(h, xs[..i], ys[..j]);
      assert xs == xs[..i] + [x] && ys == ys[..j] + [y];
    }
  }

  // ----- the stream object -----

  class OpStream {
    var records: seq<OpRecord>

    constructor ()
      ensures records == []
    {
      records := [];
    }

    constructor FromRecords(rs: seq<OpRecord>)
      ensures records == rs
    {
      records := rs;
    }

    function Head(): string
      reads this
    {
      HeadOf(records)
    }

    /** Append an op with its provenance, answering the new head. */
    method Append(h: Hasher, op: TreeOp, timestamp: int, actor: Actor, promptId: Option<string>, result: OpResult)
      returns (hash: string)
      modifies this
      ensures records == old(records) + [NextRecord(h, old(records), op, timestamp, actor, promptId, result)]
      ensures hash == Head()
      ensures old(Verified(h, records)) ==> Verified(h, records)
    {
      var previousHash := Head();
      var sequence := |records| + 1;
      hash := ComputeHash(h, previousHash, op, sequence, timestamp, actor, promptId, result);
      AppendVerified(h, records, NextRecord(h, records, op, timestamp, actor, promptId, result));
      records := records + [OpRecord(sequence, op, timestamp, actor, promptId, result, previousHash, hash)];
    }
  }

  // ----- replay -----

  datatype Replayed = Replayed(tree: Node) | Stopped(sequence: nat, error: ApplyError)

  /** Fold the records' ops over a tree, stopping at the first refusal. */
  ghost function Fold(tables: FieldTables, tree: Node, records: seq<OpRecord>): Replayed
    decreases |records|
  {
    if records == [] then Replayed(tree)
    else
      var front := Fold(tables, tree, records[..|records| - 1]);
      if front.Stopped? then front
      else
        var last := records[|records| - 1];
        var r := Apply(tables, front.tree, last.op);
        if r.Err? then Stopped(last.sequence, r.error) else Replayed(r.value)
  }

  lemma FoldSnoc(tables: FieldTables, tree: Node, records: seq<OpRecord>, r: OpRecord)
    ensures Fold(tables, tree, records + [r]) ==
      (var front := Fold(tables, tree, records);
       if front.Stopped? then front
       else
         var next := Apply(tables, front.tree, r.op);
         if next.Err? then Stopped(r.sequence, next.error) else Replayed(next.value))
  {
    assert (records + [r])[..|records + [r]| - 1] == records;
  }

  /** Resuming from the fold of a prefix folds the whole. */
  lemma {:induction false} FoldConcat(tables: FieldTables, tree: Node, xs: seq<OpRecord>, ys: seq<OpRecord>)
    ensures Fold(tables, tree, xs + ys) ==
      (var front := Fold(tables, tree, xs); if front.Stopped? then front else Fold(tables, front.tree, ys))
    decreases |ys|
  {
    if ys == [] {
      assert xs + ys == xs;
    } else {
      var front, last := ys[..|ys| - 1], ys[|ys| - 1];
      assert xs + ys == (xs + front) + [last] && ys == front + [last];
      FoldConcat(tables, tree, xs, front);
      FoldSnoc(tables, tree, xs + front, last);
    }
  }

  method Replay(tables: FieldTables, initial: Node, records: seq<OpRecord>) returns (r: Replayed)
    ensures r == Fold(tables, initial, records)
  {
    var tree := initial;
    for i := 0 to |records|
      invariant Fold(tables, initial, records[..i]) == Replayed(tree)
    {
      assert records[..i + 1] == records[..i] + [records[i]];
      FoldSnoc(tables, initial, records[..i], records[i]);
      var outcome, telemetry := ApplyTree(tables, tree, records[i].op);
      if outcome.Err? {
        assert records == records[..i + 1] + records[i + 1..];
        FoldConcat(tables, initial, records[..i + 1], records[i + 1..]);
        return Stopped(records[i].sequence, outcome.error);
      }
      tree := outcome.value;
    }
    assert records[..|records|] == records;
    r := Replayed(tree);
  }
}
