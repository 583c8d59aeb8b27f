/** Composition finds a chain exactly when one exists, and the registry keeps its index exact. */
module Composition {
  import opened Trees
  import opened Registry
  import Ordinal

  // ----- what is derivable, level by level -----

  ghost function Types(es: seq<FunctionEntry>): set<string>
  {
    set e | e in es :: e.resultType
  }

  predicate HoleReady(available: seq<SigEntry>, hole: SigEntry, ready: set<string>)
  {
    SatisfiedBy(available, hole) || (hole.kind.Slot? && hole.slot.Some? && hole.slot.value in ready)
  }

  predicate HolesReady(available: seq<SigEntry>, holes: seq<SigEntry>, ready: set<string>)
  {
    forall i :: 0 <= i < |holes| ==> HoleReady(available, holes[i], ready)
  }

  predicate Composable(available: seq<SigEntry>, mode: MatchMode, e: FunctionEntry, ready: set<string>)
  {
    MatchesQuery(mode, SignatureQuery(Some(e.resultType), available), e)
    || HolesReady(available, Required(e.holes), ready)
  }

  /** The types some entry produces once the types of `ready` can be had. */
  ghost function Next(es: seq<FunctionEntry>, available: seq<SigEntry>, mode: MatchMode,
                      ready: set<string>): set<string>
  {
    if es == [] then {}
    else
      (if Composable(available, mode, es[0], ready) then {es[0].resultType} else {}) + Next(es[1..], available, mode,
          ready)
  }

  lemma {:induction false} NextHas(es: seq<FunctionEntry>, available: seq<SigEntry>, mode: MatchMode,
                                   ready: set<string>, e: FunctionEntry)
    requires e in es && Composable(available, mode, e, ready)
    ensures e.resultType in Next(es, available, mode, ready)
  {
    if es[0] != e { NextHas(es[1..], available, mode, ready, e); }
  }

  lemma {:induction false} NextFrom(es: seq<FunctionEntry>, available: seq<SigEntry>, mode: MatchMode,
                                    ready: set<string>, output: string) returns (e: FunctionEntry)
    requires output in Next(es, available, mode, ready)
    ensures e in es && e.resultType == output && Composable(available, mode, e, ready)
  {
    if Composable(available, mode, es[0], ready) && es[0].resultType == output {
      e := es[0];
    } else {
      e := NextFrom(es[1..], available, mode, ready, output);
    }
  }

  lemma {:induction false} NextGrows(es: seq<FunctionEntry>, available: seq<SigEntry>, mode: MatchMode,
                                     below: set<string>, above: set<string>)
    requires below <= above
    ensures Next(es, available, mode, below) <= Next(es, available, mode, above)
  {
    if es != [] {
      NextGrows(es[1..], available, mode, below, above);
      ReadyMonotone(available, Required(es[0].holes), below, above);
    }
  }

  lemma {:induction false} NextProduced(es: seq<FunctionEntry>, available: seq<SigEntry>, mode: MatchMode,
                                        ready: set<string>)
    ensures Next(es, available, mode, ready) <= Types(es)
  {
    if es != [] {
      NextProduced(es[1..], available, mode, ready);
      assert Types(es[1..]) <= Types(es);
      assert es[0] in es;
    }
  }

  /** The types derivable in at most `n` levels: the nth approximation of the least fixed point. */
  ghost function Stage(es: seq<FunctionEntry>, available: seq<SigEntry>, mode: MatchMode, n: nat): set<string>
  {
    if n == 0 then {} else Next(es, available, mode, Stage(es, available, mode, n - 1))
  }

  lemma {:induction false} StageGrows(es: seq<FunctionEntry>, available: seq<SigEntry>, mode: MatchMode, n: nat)
    ensures Stage(es, available, mode, n) <= Stage(es, available, mode, n + 1)
  {
    if n > 0 {
      StageGrows(es, available, mode, n - 1);
      NextGrows(es, available, mode, Stage(es, available, mode, n - 1), Stage(es, available, mode, n));
    }
  }

  lemma ReadyMonotone(available: seq<SigEntry>, holes: seq<SigEntry>, below: set<string>, above: set<string>)
    requires below <= above
    ensures HolesReady(available, holes, below) ==> HolesReady(available, holes, above)
  {
  }

  lemma {:induction false} StageMonotone(es: seq<FunctionEntry>, available: seq<SigEntry>, mode: MatchMode, m: nat,
                                         n: nat)
    requires m <= n
    ensures Stage(es, available, mode, m) <= Stage(es, available, mode, n)
    decreases n - m
  {
    if m < n {
      StageMonotone(es, available, mode, m, n - 1);
      StageGrows(es, available, mode, n - 1);
    }
  }

  lemma {:induction false} StageStops(es: seq<FunctionEntry>, available: seq<SigEntry>, mode: MatchMode, m: nat, n: nat)
    requires m <= n && Stage(es, available, mode, m) == Stage(es, available, mode, m + 1)
    ensures Stage(es, available, mode, n) == Stage(es, available, mode, m)
    decreases n - m
  {
    if m < n { StageStops(es, available, mode, m, n - 1); }
  }

  lemma SmallerSet(a: set<string>, b: set<string>)
    requires a <= b
    ensures |a| <= |b| && (a != b ==> |a| < |b|)
  {
    var rest := b - a;
    assert b == a + rest && a !! rest;
    if a != b {
      var x :| x in rest;
      assert |rest| > 0;
    }
  }

  lemma {:induction false} StageCount(es: seq<FunctionEntry>, available: seq<SigEntry>, mode: MatchMode, n: nat)
    ensures Stage(es, available, mode, n) == Stage(es, available, mode, n + 1)
      || |Stage(es, available, mode, n + 1)| >= n + 1
  {
    if Stage(es, available, mode, n) != Stage(es, available, mode, n + 1) {
      StageGrows(es, available, mode, n);
      SmallerSet(Stage(es, available, mode, n), Stage(es, available, mode, n + 1));
      if n > 0 { StageCount(es, available, mode, n - 1); }
    }
  }

  /** As many levels as there are produced types reach everything derivable at all. */
  lemma StagesEnough(es: seq<FunctionEntry>, available: seq<SigEntry>, mode: MatchMode, n: nat)
    ensures Stage(es, available, mode, n) <= Stage(es, available, mode, |Types(es)|)
  {
    var all := |Types(es)|;
    StageCount(es, available, mode, all);
    NextProduced(es, available, mode, Stage(es, available, mode, all));
    SmallerSet(Stage(es, available, mode, all + 1), Types(es));
    if n <= all { StageMonotone(es, available, mode, n, all); } else { StageStops(es, available, mode, all, n); }
  }

  // ----- derivations and stages agree -----

  lemma {:induction false} DerivedInStage(es: seq<FunctionEntry>, available: seq<SigEntry>, mode: MatchMode,
                                          d: Derivation, output: string) returns (n: nat)
    requires Derives(es, available, mode, d, output)
    ensures output in Stage(es, available, mode, n)
    decreases d
  {
    if d.direct {
      n := 1;
    } else {
      var m := FilledInStage(es, available, mode, Required(d.entry.holes), d.fillings);
      n := m + 1;
    }
    NextHas(es, available, mode, Stage(es, available, mode, n - 1), d.entry);
  }

  lemma {:induction false} FilledInStage(es: seq<FunctionEntry>, available: seq<SigEntry>, mode: MatchMode,
                                         holes: seq<SigEntry>, fs: seq<Filled>) returns (n: nat)
    requires Fills(es, available, mode, holes, fs)
    ensures HolesReady(available, holes, Stage(es, available, mode, n))
    decreases fs, |holes|
  {
    if holes == [] {
      n := 0;
    } else {
      var m := 0;
      if SatisfiedBy(available, holes[0]) {
        n := FilledInStage(es, available, mode, holes[1..], fs);
      } else {
        assert fs[0].from < fs[0];
        m := DerivedInStage(es, available, mode, fs[0].from, holes[0].slot.value);
        n := FilledInStage(es, available, mode, holes[1..], fs[1..]);
      }
      var top := if m < n then n else m;
      StageMonotone(es, available, mode, m, top);
      StageMonotone(es, available, mode, n, top);
      ReadyMonotone(available, holes[1..], Stage(es, available, mode, n), Stage(es, available, mode, top));
      forall i | 0 <= i < |holes| ensures HoleReady(available, holes[i], Stage(es, available, mode, top)) {
        if i > 0 { assert holes[i] == holes[1..][i - 1]; }
      }
      n := top;
    }
  }

  // ----- the search reaches exactly its depth's stage -----

  lemma {:induction false} FoundInStage(es: seq<FunctionEntry>, output: string, available: seq<SigEntry>,
                                        mode: MatchMode, depth: int, seen: set<string>)
    requires ComposeSteps(es, output, available, mode, depth, seen).Some?
    ensures depth > 0 && output in Stage(es, available, mode, depth)
    decreases if depth > 0 then depth else 0, 2, 0
  {
    var q := SignatureQuery(Some(output), available);
    var direct := Scan(mode, q, es);
    if direct != [] {
      ScanMember(mode, q, es, direct[0]);
      NextHas(es, available, mode, Stage(es, available, mode, depth - 1), direct[0]);
    } else {
      var e := TriedInStage(es, ProducersOf(es, output), available, mode, depth, seen + {output});
      ProducerMember(es, output, e);
      NextHas(es, available, mode, Stage(es, available, mode, depth - 1), e);
    }
  }

  lemma {:induction false} TriedInStage(es: seq<FunctionEntry>, producers: seq<FunctionEntry>,
                                        available: seq<SigEntry>, mode: MatchMode, depth: int, seen: set<string>)
    returns (e: FunctionEntry)
    requires depth > 0 && TryProducers(es, producers, available, mode, depth, seen).Some?
    ensures e in producers && Composable(available, mode, e, Stage(es, available, mode, depth - 1))
    decreases depth, 1, |producers|
  {
    if FillHoles(es, Required(producers[0].holes), available, mode, depth, seen).Some? {
      HolesInStage(es, Required(producers[0].holes), available, mode, depth, seen);
      e := producers[0];
    } else {
      e := TriedInStage(es, producers[1..], available, mode, depth, seen);
    }
  }

  lemma {:induction false} HolesInStage(es: seq<FunctionEntry>, holes: seq<SigEntry>, available: seq<SigEntry>,
                                        mode: MatchMode, depth: int, seen: set<string>)
    requires depth > 0 && FillHoles(es, holes, available, mode, depth, seen).Some?
    ensures HolesReady(available, holes, Stage(es, available, mode, depth - 1))
    decreases depth, 0, |holes|
  {
    if holes != [] {
      HolesInStage(es, holes[1..], available, mode, depth, seen);
      if !SatisfiedBy(available, holes[0]) {
        FoundInStage(es, holes[0].slot.value, available, mode, depth - 1, seen);
      }
      forall i | 0 <= i < |holes| ensures HoleReady(available, holes[i], Stage(es, available, mode, depth - 1)) {
        if i > 0 { assert holes[i] == holes[1..][i - 1]; }
      }
    }
  }

  /** The level a type first appears at. */
  lemma {:induction false} FirstStage(es: seq<FunctionEntry>, available: seq<SigEntry>, mode: MatchMode,
                                      output: string, n: nat) returns (m: nat)
    requires output in Stage(es, available, mode, n)
    ensures 0 < m <= n && output in Stage(es, available, mode, m) && output !in Stage(es, available, mode, m - 1)
  {
    if output in Stage(es, available, mode, n - 1) {
      m := FirstStage(es, available, mode, output, n - 1);
    } else {
      m := n;
    }
  }

  /** From its first level, a type is found with depth to spare whatever later types the path has seen. */
  lemma {:induction false} StageFound(es: seq<FunctionEntry>, output: string, available: seq<SigEntry>,
                                      mode: MatchMode, depth: int, seen: set<string>, n: nat)
    requires 0 < n <= depth && seen !! Stage(es, available, mode, n)
    requires output in Stage(es, available, mode, n) && output !in Stage(es, available, mode, n - 1)
    ensures ComposeSteps(es, output, available, mode, depth, seen).Some?
    decreases n, 2, 0
  {
    var q := SignatureQuery(Some(output), available);
    var below := Stage(es, available, mode, n - 1);
    var e := NextFrom(es, available, mode, below, output);
    ScanMember(mode, q, es, e);
    if Scan(mode, q, es) == [] {
      ProducerMember(es, output, e);
      StageGrows(es, available, mode, n - 1);
      TryFound(es, ProducersOf(es, output), e, available, mode, depth, seen + {output}, n);
    }
  }

  lemma {:induction false} TryFound(es: seq<FunctionEntry>, producers: seq<FunctionEntry>, e: FunctionEntry,
                                    available: seq<SigEntry>, mode: MatchMode, depth: int, seen: set<string>, n: nat)
    requires 0 < n <= depth && seen !! Stage(es, available, mode, n - 1)
    requires e in producers && HolesReady(available, Required(e.holes), Stage(es, available, mode, n - 1))
    ensures TryProducers(es, producers, available, mode, depth, seen).Some?
    decreases n, 1, |producers|
  {
    if producers[0] == e {
      HolesFound(es, Required(e.holes), available, mode, depth, seen, n);
    } else {
      assert e in producers[1..];
      TryFound(es, producers[1..], e, available, mode, depth, seen, n);
    }
  }

  lemma {:induction false} HolesFound(es: seq<FunctionEntry>, holes: seq<SigEntry>, available: seq<SigEntry>,
                                      mode: MatchMode, depth: int, seen: set<string>, n: nat)
    requires 0 < n <= depth && seen !! Stage(es, available, mode, n - 1)
    requires HolesReady(available, holes, Stage(es, available, mode, n - 1))
    ensures FillHoles(es, holes, available, mode, depth, seen).Some?
    decreases n, 0, |holes|
  {
    if holes != [] {
      assert HoleReady(available, holes[0], Stage(es, available, mode, n - 1));
      assert HolesReady(available, holes[1..], Stage(es, available, mode, n - 1)) by {
        forall i | 0 <= i < |holes[1..]|
          ensures HoleReady(available, holes[1..][i], Stage(es, available, mode, n - 1))
        {
          assert holes[1..][i] == holes[i + 1];
        }
      }
      HolesFound(es, holes[1..], available, mode, depth, seen, n);
      if !SatisfiedBy(available, holes[0]) {
        var slot := holes[0].slot.value;
        var m := FirstStage(es, available, mode, slot, n - 1);
        StageMonotone(es, available, mode, m, n - 1);
        StageFound(es, slot, available, mode, depth - 1, seen, m);
      }
    }
  }

  /** At every depth, composition succeeds exactly on the types derivable in that many levels. */
  lemma DepthIsLevels(es: seq<FunctionEntry>, output: string, available: seq<SigEntry>, mode: MatchMode, depth: nat)
    ensures ComposeSteps(es, output, available, mode, depth, {}).Some? <==> output in Stage(es, available, mode, depth)
  {
    if ComposeSteps(es, output, available, mode, depth, {}).Some? {
      FoundInStage(es, output, available, mode, depth, {});
    }
    if output in Stage(es, available, mode, depth) {
      var m := FirstStage(es, available, mode, output, depth);
      StageFound(es, output, available, mode, depth, {}, m);
    }
  }

  ghost predicate Derivable(es: seq<FunctionEntry>, available: seq<SigEntry>, mode: MatchMode, output: string)
  {
    exists d :: Derives(es, available, mode, d, output)
  }

  lemma LinearisedIsDerivable(es: seq<FunctionEntry>, available: seq<SigEntry>, mode: MatchMode, output: string,
                              steps: seq<ComposeStep>)
    requires Linearises(es, available, mode, output, steps)
    ensures Derivable(es, available, mode, output)
  {
    var d :| Derives(es, available, mode, d, output) && steps == PostOrder(d, None);
  }

  lemma DerivableInTime(es: seq<FunctionEntry>, available: seq<SigEntry>, mode: MatchMode, output: string, depth: nat)
    requires Derivable(es, available, mode, output) && depth >= |Types(es)|
    ensures output in Stage(es, available, mode, depth)
  {
    var d :| Derives(es, available, mode, d, output);
    var n := DerivedInStage(es, available, mode, d, output);
    StagesEnough(es, available, mode, n);
    StageMonotone(es, available, mode, |Types(es)|, depth);
  }

  /** Given at least as much depth as there are produced types, composition succeeds exactly when some
      derivation exists, and answers a post-order of one. */
  lemma ComposeExact(es: seq<FunctionEntry>, output: string, available: seq<SigEntry>, mode: MatchMode, depth: int)
    requires depth >= |Types(es)|
    ensures var r := ComposeSteps(es, output, available, mode, depth, {});
      (r.Some? <==> Derivable(es, available, mode, output))
      && (r.Some? ==> Linearises(es, available, mode, output, r.value))
  {
    var r := ComposeSteps(es, output, available, mode, depth, {});
    DepthIsLevels(es, output, available, mode, depth);
    if r.Some? {
      ComposeSound(es, output, available, mode, depth, {});
      LinearisedIsDerivable(es, available, mode, output, r.value);
    }
    if Derivable(es, available, mode, output) {
      DerivableInTime(es, available, mode, output, depth);
    }
  }

  // ----- the registry -----

  ghost predicate IdsSorted(es: seq<FunctionEntry>)
  {
    forall i, j :: 0 <= i < j < |es| ==> es[i].id != es[j].id && Ordinal.Leq(es[i].id, es[j].id)
  }

  function IdsOf(es: seq<FunctionEntry>): (ids: seq<string>)
    ensures |ids| == |es| && forall i :: 0 <= i < |es| ==> ids[i] == es[i].id
  {
    if es == [] then [] else [es[0].id] + IdsOf(es[1..])
  }

  function Lookup(es: seq<FunctionEntry>, id: string): Option<FunctionEntry>
  {
    if es == [] then None else if es[0].id == id then Some(es[0]) else Lookup(es[1..], id)
  }

  function InsertEntry(e: FunctionEntry, es: seq<FunctionEntry>): seq<FunctionEntry>
  {
    if es == [] || Ordinal.Leq(e.id, es[0].id) then [e] + es else [es[0]] + InsertEntry(e, es[1..])
  }

  lemma {:induction false} LookupFinds(es: seq<FunctionEntry>, id: string)
    ensures Lookup(es, id).Some? ==> Lookup(es, id).value in es && Lookup(es, id).value.id == id
    ensures Lookup(es, id).None? ==> forall e :: e in es ==> e.id != id
  {
    if es != [] { LookupFinds(es[1..], id); }
  }

  lemma LookupUnique(es: seq<FunctionEntry>, e: FunctionEntry)
    requires IdsSorted(es) && e in es
    ensures Lookup(es, e.id) == Some(e)
  {
    LookupFinds(es, e.id);
    var found := Lookup(es, e.id).value;
    var i :| 0 <= i < |es| && es[i] == e;
    var j :| 0 <= j < |es| && es[j] == found;
    assert i == j;
  }

  lemma {:induction false} InsertEntryBag(e: FunctionEntry, es: seq<FunctionEntry>)
    ensures multiset(InsertEntry(e, es)) == multiset(es) + multiset{e}
  {
    if es != [] && !Ordinal.Leq(e.id, es[0].id) {
      InsertEntryBag(e, es[1..]);
      assert es == [es[0]] + es[1..];
    }
  }

  lemma {:induction false} InsertEntrySorted(e: FunctionEntry, es: seq<FunctionEntry>)
    requires IdsSorted(es) && forall x :: x in es ==> x.id != e.id
    ensures IdsSorted(InsertEntry(e, es))
  {
    if es == [] {
    } else if Ordinal.Leq(e.id, es[0].id) {
      forall j | 0 <= j < |es| ensures Ordinal.Leq(e.id, es[j].id) {
        if j > 0 { Ordinal.LeqTransitive(e.id, es[0].id, es[j].id); }
      }
    } else {
      InsertEntrySorted(e, es[1..]);
      Ordinal.LeqTotal(e.id, es[0].id);
      var rest := InsertEntry(e, es[1..]);
      InsertEntryBag(e, es[1..]);
      forall j | 0 <= j < |rest| ensures rest[j].id != es[0].id && Ordinal.Leq(es[0].id, rest[j].id) {
        assert rest[j] in multiset(rest);
        assert rest[j] == e || rest[j] in es[1..];
      }
    }
  }

  /** Inserting an entry inserts its id among its type's producers, and leaves every other type's. */
  lemma {:induction false} InsertProducer(e: FunctionEntry, es: seq<FunctionEntry>, output: string)
    requires IdsSorted(es)
    ensures IdsOf(ProducersOf(InsertEntry(e, es), output))
         == if output == e.resultType then Ordinal.Insert(e.id, IdsOf(ProducersOf(es, output)))
            else IdsOf(ProducersOf(es, output))
  {
    if es == [] {
      assert IdsOf([]) == [];
      assert [e][1..] == [];
    } else if Ordinal.Leq(e.id, es[0].id) {
      assert ([e] + es)[1..] == es;
      InsertedFirst(e, es, output);
    } else {
      InsertProducer(e, es[1..], output);
      InsertedLater(e, es, output);
    }
  }

  lemma InsertedLater(e: FunctionEntry, es: seq<FunctionEntry>, output: string)
    requires es != [] && !Ordinal.Leq(e.id, es[0].id)
    requires var ids := IdsOf(ProducersOf(es[1..], output));
      IdsOf(ProducersOf(InsertEntry(e, es[1..]), output))
      == if output == e.resultType then Ordinal.Insert(e.id, ids) else ids
    ensures var ids := IdsOf(ProducersOf(es, output));
      IdsOf(ProducersOf(InsertEntry(e, es), output))
      == if output == e.resultType then Ordinal.Insert(e.id, ids) else ids
  {
    var head, rest := es[0], InsertEntry(e, es[1..]);
    assert es == [head] + es[1..];
    ConsProducers(head, rest, output);
    ConsProducers(head, es[1..], output);
    var ids := IdsOf(ProducersOf(es[1..], output));
    InsertPast(e.id, head.id, ids);
    assert [] + ids == ids && [] + Ordinal.Insert(e.id, ids) == Ordinal.Insert(e.id, ids);
  }

  lemma InsertPast(x: string, y: string, ids: seq<string>)
    requires !Ordinal.Leq(x, y)
    ensures Ordinal.Insert(x, [y] + ids) == [y] + Ordinal.Insert(x, ids)
  {
    assert ([y] + ids)[1..] == ids;
  }

  lemma ConsProducers(x: FunctionEntry, es: seq<FunctionEntry>, output: string)
    ensures IdsOf(ProducersOf([x] + es, output))
         == (if x.resultType == output then [x.id] else []) + IdsOf(ProducersOf(es, output))
  {
    assert ([x] + es)[1..] == es;
  }

  lemma InsertedFirst(e: FunctionEntry, es: seq<FunctionEntry>, output: string)
    requires IdsSorted(es) && es != [] && Ordinal.Leq(e.id, es[0].id)
    ensures output == e.resultType
      ==> Ordinal.Insert(e.id, IdsOf(ProducersOf(es, output))) == [e.id] + IdsOf(ProducersOf(es, output))
    ensures IdsOf(ProducersOf([e] + es, output))
         == (if e.resultType == output then [e.id] else []) + IdsOf(ProducersOf(es, output))
  {
    ConsProducers(e, es, output);
    var producers := ProducersOf(es, output);
    if producers != [] {
      ProducerMember(es, output, producers[0]);
      var i :| 0 <= i < |es| && es[i] == producers[0];
      if i > 0 { Ordinal.LeqTransitive(e.id, es[0].id, es[i].id); }
    }
  }

  /** For every type, exactly the ids a scan of the entries finds. */
  ghost predicate IndexAgrees(es: seq<FunctionEntry>, byResult: map<string, seq<string>>)
  {
    forall t :: IndexAt(es, byResult, t)
  }

  ghost predicate IndexAt(es: seq<FunctionEntry>, byResult: map<string, seq<string>>, t: string)
  {
    var ids := IdsOf(ProducersOf(es, t));
    if t in byResult then ids != [] && byResult[t] == ids else ids == []
  }

  lemma IndexAfterInsert(es: seq<FunctionEntry>, byResult: map<string, seq<string>>, e: FunctionEntry)
    requires IdsSorted(es) && IndexAgrees(es, byResult)
    ensures var ids := if e.resultType in byResult then byResult[e.resultType] else [];
      IndexAgrees(InsertEntry(e, es), byResult[e.resultType := Ordinal.Insert(e.id, ids)])
  {
    var ids := if e.resultType in byResult then byResult[e.resultType] else [];
    var after := byResult[e.resultType := Ordinal.Insert(e.id, ids)];
    forall t ensures IndexAt(InsertEntry(e, es), after, t) {
      assert IndexAt(es, byResult, t);
      InsertProducer(e, es, t);
    }
  }

  method Selected(mode: MatchMode, q: SignatureQuery, candidates: seq<FunctionEntry>)
    returns (found: seq<FunctionEntry>)
    ensures found == Scan(mode, q, candidates)
  {
    found := [];
    for i := 0 to |candidates|
      invariant found + Scan(mode, q, candidates[i..]) == Scan(mode, q, candidates)
    {
      assert candidates[i..][1..] == candidates[i + 1..];
      if MatchesQuery(mode, q, candidates[i]) {
        found := found + [candidates[i]];
      }
    }
  }

  lemma PrefixedByNothing(rest: Option<seq<ComposeStep>>)
    ensures Prefixed([], rest) == rest
  {
    if rest.Some? { assert [] + rest.value == rest.value; }
  }

  /** What a partial chain in front of a search result makes of it. */
  function Prefixed(sub: seq<ComposeStep>, rest: Option<seq<ComposeStep>>): Option<seq<ComposeStep>>
  {
    if rest.None? then None else Some(sub + rest.value)
  }

  lemma PrefixedTwice(sub: seq<ComposeStep>, more: seq<ComposeStep>, rest: Option<seq<ComposeStep>>)
    ensures Prefixed(sub, Prefixed(more, rest)) == Prefixed(sub + more, rest)
  {
    if rest.Some? { assert sub + (more + rest.value) == (sub + more) + rest.value; }
  }

  class FunctionRegistry {
    var entries: seq<FunctionEntry>           // the catalogue, in id order
    var byResult: map<string, seq<string>>    // produced type to the ids producing it, in id order

    /** The index lists, for every type, exactly the ids a scan of the entries finds. */
    ghost predicate Valid()
      reads this
    {
      IdsSorted(entries) && IndexAgrees(entries, byResult)
    }

    constructor ()
      ensures Valid() && entries == []
    {
      entries, byResult := [], map[];
    }

    method Register(entry: FunctionEntry) returns (r: Option<string>)
      requires Valid()
      modifies this
      ensures Valid()
      ensures r.Some? <==> exists e :: e in old(entries) && e.id == entry.id
      ensures r.Some? ==> r.value == entry.id && entries == old(entries) && byResult == old(byResult)
      ensures r.None? ==> multiset(entries) == multiset(old(entries)) + multiset{entry}
    {
      LookupFinds(entries, entry.id);
      if Lookup(entries, entry.id).Some? {
        return Some(entry.id);
      }
      var ids := if entry.resultType in byResult then byResult[entry.resultType] else [];
      InsertEntryBag(entry, entries);
      InsertEntrySorted(entry, entries);
      IndexAfterInsert(entries, byResult, entry);
      byResult := byResult[entry.resultType := Ordinal.Insert(entry.id, ids)];
      entries := InsertEntry(entry, entries);
      r := None;
    }

    /** The entries at a list of ids, each looked up in the catalogue. */
    method At(ids: seq<string>, ghost expected: seq<FunctionEntry>) returns (found: seq<FunctionEntry>)
      requires Valid() && ids == IdsOf(expected) && forall e :: e in expected ==> e in entries
      ensures found == expected
    {
      found := [];
      for i := 0 to |ids|
        invariant found == expected[..i]
      {
        LookupUnique(entries, expected[i]);
        var e := Lookup(entries, ids[i]);
        if e.Some? { found := found + [e.value]; }
      }
    }

    /** Search through the index answers what a scan of every entry would. */
    method FindBySignature(mode: MatchMode, q: SignatureQuery) returns (found: seq<FunctionEntry>)
      requires Valid()
      ensures found == Scan(mode, q, entries)
    {
      var candidates := entries;
      if q.resultType.Some? {
        var t := q.resultType.value;
        forall e | e in ProducersOf(entries, t) ensures e in entries { ProducerMember(entries, t, e); }
        ScanOfProducers(mode, q, entries);
        candidates := [];
        assert IndexAt(entries, byResult, t);
        if t in byResult {
          candidates := At(byResult[t], ProducersOf(entries, t));
        }
      }
      found := Selected(mode, q, candidates);
    }

    method Steps(output: string, available: seq<SigEntry>, mode: MatchMode, depth: int, seen: set<string>)
      returns (r: Option<seq<ComposeStep>>)
      requires Valid()
      ensures r == ComposeSteps(entries, output, available, mode, depth, seen)
      decreases if depth > 0 then depth else 0, 1
    {
      if depth <= 0 || output in seen {
        return None;
      }
      var direct := FindBySignature(mode, SignatureQuery(Some(output), available));
      if direct != [] {
        return Some([ComposeStep(direct[0].id, None)]);
      }
      var seenNext := seen + {output};
      assert IndexAt(entries, byResult, output);
      if output !in byResult {
        return None;
      }
      ghost var producers := ProducersOf(entries, output);
      forall e | e in producers ensures e in entries { ProducerMember(entries, output, e); }
      var candidates := At(byResult[output], producers);
      for i := 0 to |candidates|
        invariant TryProducers(entries, candidates[i..], available, mode, depth, seenNext)
               == TryProducers(entries, candidates, available, mode, depth, seenNext)
      {
        assert candidates[i..][1..] == candidates[i + 1..];
        var sub := FillAll(Required(candidates[i].holes), available, mode, depth, seenNext);
        if sub.Some? {
          return Some(sub.value + [ComposeStep(candidates[i].id, None)]);
        }
      }
      r := None;
    }

    /** The chains filling one producer's unmet holes, in order, or none as soon as one cannot be filled. */
    method FillAll(holes: seq<SigEntry>, available: seq<SigEntry>, mode: MatchMode, depth: int, seen: set<string>)
      returns (r: Option<seq<ComposeStep>>)
      requires Valid() && depth > 0
      ensures r == FillHoles(entries, holes, available, mode, depth, seen)
      decreases depth, 0
    {
      var sub := [];
      assert holes[0..] == holes;
      PrefixedByNothing(FillHoles(entries, holes, available, mode, depth, seen));
      for j := 0 to |holes|
        invariant FillHoles(entries, holes, available, mode, depth, seen)
               == Prefixed(sub, FillHoles(entries, holes[j..], available, mode, depth, seen))
      {
        assert holes[j..][1..] == holes[j + 1..];
        var hole := holes[j];
        if !SatisfiedBy(available, hole) {
          if !hole.kind.Slot? || hole.slot.None? {
            return None;
          }
          var child := Steps(hole.slot.value, available, mode, depth - 1, seen);
          if child.None? {
            return None;
          }
          PrefixedTwice(sub, Filling(child.value, hole.addr),
              FillHoles(entries, holes[j + 1..], available, mode, depth, seen));
          sub := sub + Filling(child.value, hole.addr);
        }
      }
      assert sub + [] == sub;
      r := Some(sub);
    }

    method Compose(output: string, inputs: seq<SigEntry>, mode: MatchMode, maxDepth: int) returns (r: ComposeResult)
      requires Valid()
      ensures r == match ComposeSteps(entries, output, inputs, mode, maxDepth, {})
                   case Some(steps) => ComposePath(steps)
                   case None => NoPath
      ensures maxDepth >= |Types(entries)| ==> (r.ComposePath? <==> Derivable(entries, inputs, mode, output))
      ensures r.ComposePath? ==> Linearises(entries, inputs, mode, output, r.steps)
    {
      var found := Steps(output, inputs, mode, maxDepth, {});
      if maxDepth >= |Types(entries)| { ComposeExact(entries, output, inputs, mode, maxDepth); }
      if found.Some? { ComposeSound(entries, output, inputs, mode, maxDepth, {}); }
      r := if found.Some? then ComposePath(found.value) else NoPath;
    }
  }
}
