/** The signature-searchable function registry: registration, search by signature, and composition. */
module Registry {
  import opened Trees

  datatype Space =
    | IntRange(min: int, max: int)
    | FloatRange(low: real, high: real)
    | StringLen(min: int, max: int)
    | Enum(choices: seq<string>)
    | AnyString

  datatype HoleKind = Value | Slot | Repeat | Action

  datatype SigEntry = SigEntry(addr: string, name: string, kind: HoleKind, space: Option<Space>, slot: Option<string>,
                               required: bool)

  datatype FunctionEntry = FunctionEntry(id: string, resultType: string, holes: seq<SigEntry>)

  datatype MatchMode = Subsumes | Exact

  datatype SignatureQuery = SignatureQuery(resultType: Option<string>, available: seq<SigEntry>)

  datatype ComposeStep = ComposeStep(functionId: string, fillsSlot: Option<string>)

  datatype ComposeResult = ComposePath(steps: seq<ComposeStep>) | NoPath

  // ----- subsumption -----

  /** Whether every value the available space supplies is acceptable to the required one. */
  predicate SpaceSubsumes(required: Space, available: Space)
  {
    match required
    case IntRange(l, h) => available.IntRange? && l <= available.min && available.max <= h
    case StringLen(l, h) => available.StringLen? && l <= available.min && available.max <= h
    case FloatRange(l, h) => available.FloatRange? && l <= available.low && available.high <= h
    case Enum(rs) => available.Enum? && forall i :: 0 <= i < |available.choices| ==> available.choices[i] in rs
    case AnyString => available.StringLen? || available.Enum? || available.AnyString?
  }

  datatype Held = HeldInt(i: int) | HeldFloat(f: real) | HeldString(s: string)

  predicate Holds(space: Space, v: Held)
  {
    match space
    case IntRange(l, h) => v.HeldInt? && l <= v.i <= h
    case FloatRange(l, h) => v.HeldFloat? && l <= v.f <= h
    case StringLen(l, h) => v.HeldString? && l <= |v.s| <= h
    case Enum(cs) => v.HeldString? && v.s in cs
    case AnyString => v.HeldString?
  }

  ghost predicate Includes(required: Space, available: Space)
  {
    forall v :: Holds(available, v) ==> Holds(required, v)
  }

  lemma SubsumptionIsInclusion(required: Space, available: Space)
    requires SpaceSubsumes(required, available)
    ensures Includes(required, available)
  {
  }

  /** Within one family, a range that holds something is subsumed exactly when it is included. */
  lemma InclusionIsSubsumption(required: Space, available: Space)
    requires (required.IntRange? && available.IntRange? && available.min <= available.max)
          || (required.FloatRange? && available.FloatRange? && available.low <= available.high)
          || (required.StringLen? && available.StringLen? && 0 <= available.min <= available.max)
          || (required.Enum? && available.Enum?)
          || (required.AnyString? && !available.IntRange? && !available.FloatRange?)
    requires Includes(required, available)
    ensures SpaceSubsumes(required, available)
  {
    match available
    case IntRange(l, h) => assert Holds(available, HeldInt(l)) && Holds(available, HeldInt(h));
    case FloatRange(l, h) => assert Holds(available, HeldFloat(l)) && Holds(available, HeldFloat(h));
    case StringLen(l, h) =>
      if required.StringLen? {
        var shortest, longest := seq(l, _ => 'a'), seq(h, _ => 'a');
        assert Holds(available, HeldString(shortest)) && Holds(available, HeldString(longest));
      }
    case Enum(cs) =>
      forall i | 0 <= i < |cs| && required.Enum? ensures cs[i] in required.choices {
        assert Holds(available, HeldString(cs[i]));
      }
    case AnyString =>
  }

  predicate HoleSatisfied(req: SigEntry, av: SigEntry)
  {
    req.kind == av.kind
    && if req.kind.Slot? then req.slot.None? || req.slot == av.slot
       else req.space.Some? && av.space.Some? && SpaceSubsumes(req.space.value, av.space.value)
  }

  /** The context hole at an address; of two at one address, the later. */
  function Offered(available: seq<SigEntry>, addr: string): Option<SigEntry>
    decreases |available|
  {
    if available == [] then None
    else
      var last := available[|available| - 1];
      if last.addr == addr then Some(last) else Offered(available[..|available| - 1], addr)
  }

  predicate SatisfiedBy(available: seq<SigEntry>, hole: SigEntry)
  {
    var av := Offered(available, hole.addr);
    av.Some? && HoleSatisfied(hole, av.value)
  }

  predicate SameShape(available: seq<SigEntry>, hole: SigEntry)
  {
    var av := Offered(available, hole.addr);
    av.Some? && hole.kind == av.value.kind && hole.space == av.value.space && hole.slot == av.value.slot
  }

  function Required(holes: seq<SigEntry>): seq<SigEntry>
  {
    if holes == [] then [] else (if holes[0].required then [holes[0]] else []) + Required(holes[1..])
  }

  predicate MatchesQuery(mode: MatchMode, q: SignatureQuery, e: FunctionEntry)
  {
    var required := Required(e.holes);
    (q.resultType.Some? ==> q.resultType.value == e.resultType)
    && match mode
       case Subsumes => forall i :: 0 <= i < |required| ==> SatisfiedBy(q.available, required[i])
       case Exact =>
         |required| == |q.available| && forall i :: 0 <= i < |required| ==> SameShape(q.available, required[i])
  }

  // ----- search -----

  /** The entries a query selects, in id order: a scan of the whole catalogue. */
  function Scan(mode: MatchMode, q: SignatureQuery, es: seq<FunctionEntry>): seq<FunctionEntry>
  {
    if es == [] then []
    else (if MatchesQuery(mode, q, es[0]) then [es[0]] else []) + Scan(mode, q, es[1..])
  }

  /** The entries producing a type, in id order. */
  function ProducersOf(es: seq<FunctionEntry>, output: string): seq<FunctionEntry>
  {
    if es == [] then []
    else (if es[0].resultType == output then [es[0]] else []) + ProducersOf(es[1..], output)
  }

  lemma {:induction false} ScanOfProducers(mode: MatchMode, q: SignatureQuery, es: seq<FunctionEntry>)
    requires q.resultType.Some?
    ensures Scan(mode, q, ProducersOf(es, q.resultType.value)) == Scan(mode, q, es)
  {
    if es != [] {
      ScanOfProducers(mode, q, es[1..]);
      var rest := ProducersOf(es[1..], q.resultType.value);
      assert ([es[0]] + rest)[1..] == rest;
      assert [] + rest == rest;
      assert [] + Scan(mode, q, es[1..]) == Scan(mode, q, es[1..]);
    }
  }

  lemma {:induction false} ScanMember(mode: MatchMode, q: SignatureQuery, es: seq<FunctionEntry>, e: FunctionEntry)
    ensures e in Scan(mode, q, es) <==> e in es && MatchesQuery(mode, q, e)
  {
    if es != [] {
      ScanMember(mode, q, es[1..], e);
      assert e in es <==> e == es[0] || e in es[1..];
    }
  }

  lemma {:induction false} ProducerMember(es: seq<FunctionEntry>, output: string, e: FunctionEntry)
    ensures e in ProducersOf(es, output) <==> e in es && e.resultType == output
  {
    if es != [] {
      ProducerMember(es[1..], output, e);
      assert e in es <==> e == es[0] || e in es[1..];
    }
  }

  // ----- composition -----

  /** A chain of functions producing `output` from the context, its root last. */
  function ComposeSteps(es: seq<FunctionEntry>, output: string, available: seq<SigEntry>, mode: MatchMode,
                        depth: int, seen: set<string>): Option<seq<ComposeStep>>
    decreases if depth > 0 then depth else 0, 2, 0
  {
    if depth <= 0 || output in seen then None
    else
      var direct := Scan(mode, SignatureQuery(Some(output), available), es);
      if direct != [] then Some([ComposeStep(direct[0].id, None)])
      else TryProducers(es, ProducersOf(es, output), available, mode, depth, seen + {output})
  }

  /** The first producer all of whose unmet required holes are slots that can be composed. */
  function TryProducers(es: seq<FunctionEntry>, producers: seq<FunctionEntry>, available: seq<SigEntry>,
                        mode: MatchMode,
                        depth: int, seen: set<string>): Option<seq<ComposeStep>>
    requires depth > 0
    decreases depth, 1, |producers|
  {
    if producers == [] then None
    else
      var sub := FillHoles(es, Required(producers[0].holes), available, mode, depth, seen);
      if sub.Some? then Some(sub.value + [ComposeStep(producers[0].id, None)])
      else TryProducers(es, producers[1..], available, mode, depth, seen)
  }

  function FillHoles(es: seq<FunctionEntry>, holes: seq<SigEntry>, available: seq<SigEntry>, mode: MatchMode,
                     depth: int, seen: set<string>): Option<seq<ComposeStep>>
    requires depth > 0
    decreases depth, 0, |holes|
  {
    if holes == [] then Some([])
    else if SatisfiedBy(available, holes[0]) then FillHoles(es, holes[1..], available, mode, depth, seen)
    else if holes[0].kind.Slot? && holes[0].slot.Some? then
      var child := ComposeSteps(es, holes[0].slot.value, available, mode, depth - 1, seen);
      if child.None? then None
      else
        var rest := FillHoles(es, holes[1..], available, mode, depth, seen);
        if rest.None? then None else Some(Filling(child.value, holes[0].addr) + rest.value)
    else None
  }

  /** The steps with their root marked as filling a slot. */
  function Filling(steps: seq<ComposeStep>, addr: string): seq<ComposeStep>
  {
    if steps == [] then [] else steps[|steps| - 1 := steps[|steps| - 1].(fillsSlot := Some(addr))]
  }

  // ----- what a composition is -----

  /** A derivation: a function applied, with what fills each required hole the context does not. */
  datatype Derivation = Applied(entry: FunctionEntry, direct: bool, fillings: seq<Filled>)
  datatype Filled = Filled(addr: string, from: Derivation)

  predicate Derives(es: seq<FunctionEntry>, available: seq<SigEntry>, mode: MatchMode, d: Derivation, output: string)
    decreases d
  {
    d.entry in es && d.entry.resultType == output
    && if d.direct then d.fillings == [] && MatchesQuery(mode, SignatureQuery(Some(output), available), d.entry)
       else Fills(es, available, mode, Required(d.entry.holes), d.fillings)
  }

  predicate Fills(es: seq<FunctionEntry>, available: seq<SigEntry>, mode: MatchMode, holes: seq<SigEntry>,
                  fs: seq<Filled>)
    decreases fs, |holes|
  {
    if holes == [] then fs == []
    else if SatisfiedBy(available, holes[0]) then Fills(es, available, mode, holes[1..], fs)
    else
      holes[0].kind.Slot? && holes[0].slot.Some? && fs != []
      && (var f := fs[0];
          assert f.from < f;
          f.addr == holes[0].addr && Derives(es, available, mode, f.from, holes[0].slot.value)
          && Fills(es, available, mode, holes[1..], fs[1..]))
  }

  /** A derivation's steps in post-order: what fills its holes, then the function itself. */
  function PostOrder(d: Derivation, fills: Option<string>): (steps: seq<ComposeStep>)
    ensures |steps| > 0 && steps[|steps| - 1] == ComposeStep(d.entry.id, fills)
    decreases d
  {
    PostOrderAll(d.fillings) + [ComposeStep(d.entry.id, fills)]
  }

  function PostOrderAll(fs: seq<Filled>): seq<ComposeStep>
    decreases fs
  {
    if fs == [] then []
    else
      var f := fs[0];
      assert f.from < f;
      PostOrder(f.from, Some(f.addr)) + PostOrderAll(fs[1..])
  }

  ghost predicate Linearises(es: seq<FunctionEntry>, available: seq<SigEntry>, mode: MatchMode, output: string,
                             steps: seq<ComposeStep>)
  {
    exists d :: Derives(es, available, mode, d, output) && steps == PostOrder(d, None)
  }

  lemma FillingPostOrder(d: Derivation, addr: string)
    ensures Filling(PostOrder(d, None), addr) == PostOrder(d, Some(addr))
  {
  }

  lemma {:induction false} ComposeSound(es: seq<FunctionEntry>, output: string, available: seq<SigEntry>,
                                        mode: MatchMode, depth: int, seen: set<string>)
    requires ComposeSteps(es, output, available, mode, depth, seen).Some?
    ensures Linearises(es, available, mode, output, ComposeSteps(es, output, available, mode, depth, seen).value)
    decreases if depth > 0 then depth else 0, 2, 0
  {
    var q := SignatureQuery(Some(output), available);
    var direct := Scan(mode, q, es);
    if direct != [] {
      ScanMember(mode, q, es, direct[0]);
      var d := Applied(direct[0], true, []);
      assert Derives(es, available, mode, d, output) && PostOrder(d, None) == [ComposeStep(direct[0].id, None)];
    } else {
      var producers := ProducersOf(es, output);
      forall e | e in producers ensures e in es && e.resultType == output { ProducerMember(es, output, e); }
      TrySound(es, producers, output, available, mode, depth, seen + {output});
    }
  }

  lemma {:induction false} TrySound(es: seq<FunctionEntry>, producers: seq<FunctionEntry>, output: string,
                                    available: seq<SigEntry>, mode: MatchMode, depth: int, seen: set<string>)
    requires depth > 0 && TryProducers(es, producers, available, mode, depth, seen).Some?
    requires forall e :: e in producers ==> e in es && e.resultType == output
    ensures Linearises(es, available, mode, output, TryProducers(es, producers, available, mode, depth, seen).value)
    decreases depth, 1, |producers|
  {
    var holes := Required(producers[0].holes);
    if FillHoles(es, holes, available, mode, depth, seen).Some? {
      var fs := FillSound(es, holes, available, mode, depth, seen);
      var d := Applied(producers[0], false, fs);
      assert Derives(es, available, mode, d, output);
    } else {
      TrySound(es, producers[1..], output, available, mode, depth, seen);
    }
  }

  lemma {:induction false} FillSound(es: seq<FunctionEntry>, holes: seq<SigEntry>, available: seq<SigEntry>,
                                     mode: MatchMode, depth: int, seen: set<string>) returns (fs: seq<Filled>)
    requires depth > 0 && FillHoles(es, holes, available, mode, depth, seen).Some?
    ensures Fills(es, available, mode, holes, fs)
    ensures PostOrderAll(fs) == FillHoles(es, holes, available, mode, depth, seen).value
    decreases depth, 0, |holes|
  {
    if holes == [] {
      fs := [];
    } else if SatisfiedBy(available, holes[0]) {
      fs := FillSound(es, holes[1..], available, mode, depth, seen);
    } else {
      var slot := holes[0].slot.value;
      ComposeSound(es, slot, available, mode, depth - 1, seen);
      var steps := ComposeSteps(es, slot, available, mode, depth - 1, seen).value;
      var d :| Derives(es, available, mode, d, slot) && steps == PostOrder(d, None);
      FillingPostOrder(d, holes[0].addr);
      var rest := FillSound(es, holes[1..], available, mode, depth, seen);
      fs := [Filled(holes[0].addr, d)] + rest;
      assert fs[1..] == rest;
    }
  }
}
