/** What every accepted op keeps: unique ids, the wire limits, and a moved subtree. */
module WellFormed {
  import opened Trees
  import opened TreeOps
  import opened TreeFacts
  import Ordinal

  // ----- unique ids, through batches whose half-way trees repeat ids -----

  /** Two sub-nodes share an id that was not installed only where both hold one installed root id. */
  ghost predicate Shares(c: Node, d: Node, installed: multiset<Id>)
  {
    forall y :: y in Ids(c) && y in Ids(d) && y !in installed ==> c.id == d.id && c.id in installed
  }

  ghost predicate SharesAll(ns: seq<Node>, installed: multiset<Id>)
  {
    forall i, j :: 0 <= i < j < |ns| ==> Shares(ns[i], ns[j], installed)
  }

  /** Every repeated id can be blamed on an installed one. */
  ghost predicate Tame(n: Node, installed: multiset<Id>)
    decreases Count(n), 0
  {
    var cs := ChildNodes(n);
    (n.id in IdsAll(cs) ==> n.id in installed) && SharesAll(cs, installed) && TameAll(cs, installed)
  }

  ghost predicate TameAll(ns: seq<Node>, installed: multiset<Id>)
    decreases CountAll(ns), 1
  {
    ns == [] || (Tame(ns[0], installed) && TameAll(ns[1..], installed))
  }

  lemma {:induction false} TameAt(ns: seq<Node>, installed: multiset<Id>)
    ensures TameAll(ns, installed) <==> forall i :: 0 <= i < |ns| ==> Tame(ns[i], installed)
  {
    if ns != [] {
      TameAt(ns[1..], installed);
      if forall i :: 0 <= i < |ns| ==> Tame(ns[i], installed) {
        forall i | 0 <= i < |ns[1..]| ensures Tame(ns[1..][i], installed) {
          assert ns[1..][i] == ns[i + 1];
        }
      }
      if TameAll(ns, installed) {
        forall i | 0 <= i < |ns| ensures Tame(ns[i], installed) {
          if i > 0 { assert ns[i] == ns[1..][i - 1]; }
        }
      }
    }
  }

  /** A tree of unique ids is tame whatever was installed. */
  lemma {:induction false} UniqueTame(n: Node, installed: multiset<Id>)
    requires UniqueIds(n)
    ensures Tame(n, installed)
    decreases Count(n)
  {
    var cs := ChildNodes(n);
    UniqueBelow(n);
    forall i | 0 <= i < |cs| ensures Tame(cs[i], installed) {
      CountAllAt(cs, i);
      DistinctMember(cs, i);
      UniqueTame(cs[i], installed);
    }
    TameAt(cs, installed);
    forall i, j | 0 <= i < j < |cs| ensures Shares(cs[i], cs[j], installed) {
      PositionsDisjoint(cs, i, j);
    }
  }

  /** A subtree all of whose ids were installed is tame. */
  lemma {:induction false} InstalledTame(n: Node, installed: multiset<Id>)
    requires forall y :: y in Ids(n) ==> y in installed
    ensures Tame(n, installed)
    decreases Count(n)
  {
    var cs := ChildNodes(n);
    forall i | 0 <= i < |cs| ensures Tame(cs[i], installed) {
      CountAllAt(cs, i);
      IdsAllMember(cs, i);
      InstalledTame(cs[i], installed);
    }
    TameAt(cs, installed);
    forall i, j | 0 <= i < j < |cs| ensures Shares(cs[i], cs[j], installed) {
      IdsAllMember(cs, i);
    }
  }

  /** A tame tree that repeats no installed id repeats no id. */
  lemma {:induction false} TameUnique(n: Node, installed: multiset<Id>, whole: multiset<Id>)
    requires Tame(n, installed) && Ids(n) <= whole && forall x :: x in installed ==> whole[x] <= 1
    ensures UniqueIds(n)
    decreases Count(n), 0
  {
    var cs := ChildNodes(n);
    TameAllUnique(cs, installed, whole);
    DistinctSum(multiset{n.id}, IdsAll(cs));
  }

  lemma {:induction false} TameAllUnique(ns: seq<Node>, installed: multiset<Id>, whole: multiset<Id>)
    requires TameAll(ns, installed) && SharesAll(ns, installed)
    requires IdsAll(ns) <= whole && forall x :: x in installed ==> whole[x] <= 1
    ensures Distinct(IdsAll(ns))
    decreases CountAll(ns), 1
  {
    if ns != [] {
      TameUnique(ns[0], installed, whole);
      TameAllUnique(ns[1..], installed, whole);
      forall y | y in Ids(ns[0]) && y in IdsAll(ns[1..]) ensures false {
        var z := Blame(ns, y, installed);
      }
      assert Ids(ns[0]) !! IdsAll(ns[1..]);
      DistinctSum(Ids(ns[0]), IdsAll(ns[1..]));
    }
  }

  /** An id shared by the head and the rest of a list names an installed id the list repeats. */
  lemma Blame(ns: seq<Node>, y: Id, installed: multiset<Id>) returns (z: Id)
    requires SharesAll(ns, installed) && ns != [] && y in Ids(ns[0]) && y in IdsAll(ns[1..])
    ensures z in installed && IdsAll(ns)[z] >= 2
  {
    var j := IdsAllOwner(ns[1..], y);
    assert Shares(ns[0], ns[j + 1], installed);
    IdsAllMember(ns[1..], j);
    z := if y in installed then y else ns[0].id;
  }

  /** More installed ids keep a tree tame. */
  lemma {:induction false} TameMore(n: Node, installed: multiset<Id>, more: multiset<Id>)
    requires Tame(n, installed) && forall y :: y in installed ==> y in more
    ensures Tame(n, more)
    decreases Count(n)
  {
    var cs := ChildNodes(n);
    TameAt(cs, installed);
    forall i | 0 <= i < |cs| ensures Tame(cs[i], more) {
      CountAllAt(cs, i);
      TameMore(cs[i], installed, more);
    }
    TameAt(cs, more);
    forall i, j | 0 <= i < j < |cs| ensures Shares(cs[i], cs[j], more) {
      assert Shares(cs[i], cs[j], installed);
    }
  }

  lemma {:induction false} FoundTame(n: Node, t: Id, installed: multiset<Id>)
    requires Tame(n, installed) && FindNode(n, t).Some?
    ensures Tame(FindNode(n, t).value, installed)
    decreases Count(n), 0
  {
    if n.id != t { FoundInTame(ChildNodes(n), t, installed); }
  }

  lemma {:induction false} FoundInTame(ns: seq<Node>, t: Id, installed: multiset<Id>)
    requires TameAll(ns, installed) && FindIn(ns, t).Some?
    ensures Tame(FindIn(ns, t).value, installed)
    decreases CountAll(ns), 1
  {
    if FindNode(ns[0], t).Some? {
      FoundTame(ns[0], t, installed);
    } else {
      FoundInTame(ns[1..], t, installed);
    }
  }

  /** `m`'s ids that were not installed are `a`'s, or new to the whole tree. */
  ghost predicate Admissible(whole: multiset<Id>, a: Node, m: Node, installed: multiset<Id>)
  {
    m.id == a.id && forall y :: y in Ids(m) && y !in installed ==> y in Ids(a) || y !in whole
  }

  ghost predicate AdmissibleAll(whole: multiset<Id>, ns: seq<Node>, ms: seq<Node>, installed: multiset<Id>)
  {
    |ns| == |ms| && forall k :: 0 <= k < |ns| ==> Admissible(whole, ns[k], ms[k], installed)
  }

  /** Writing a tame subtree of admissible ids through a found node keeps the tree tame. */
  lemma {:induction false} ReplaceTame(n: Node, t: Id, m: Node, installed: multiset<Id>, whole: multiset<Id>)
    requires Tame(n, installed) && FindNode(n, t).Some? && Tame(m, installed) && Ids(n) <= whole
    requires Admissible(whole, FindNode(n, t).value, m, installed)
    ensures Tame(Replace(n, t, m), installed) && Admissible(whole, n, Replace(n, t, m), installed)
    decreases Count(n), 0
  {
    if n.id != t {
      var cs := ChildNodes(n);
      var ms := ReplaceIn(cs, t, m);
      ReplaceInTame(cs, t, m, installed, whole);
      var at := ReplacedAt(cs, t, m);
      SharesKept(cs, ms, at, installed, whole);
      AdmissibleIds(cs, ms, installed, whole);
    }
  }

  lemma {:induction false} ReplaceInTame(ns: seq<Node>, t: Id, m: Node, installed: multiset<Id>, whole: multiset<Id>)
    requires TameAll(ns, installed) && FindIn(ns, t).Some? && Tame(m, installed)
    requires IdsAll(ns) <= whole && Admissible(whole, FindIn(ns, t).value, m, installed)
    ensures TameAll(ReplaceIn(ns, t, m), installed) && AdmissibleAll(whole, ns, ReplaceIn(ns, t, m), installed)
    decreases CountAll(ns), 1
  {
    var ms := ReplaceIn(ns, t, m);
    if FindNode(ns[0], t).Some? {
      ReplaceTame(ns[0], t, m, installed, whole);
      assert ms[0] == Replace(ns[0], t, m) && ms[1..] == ns[1..];
    } else {
      ReplaceInTame(ns[1..], t, m, installed, whole);
      assert ms[0] == ns[0] && ms[1..] == ReplaceIn(ns[1..], t, m);
    }
    forall k | 0 <= k < |ns| ensures Admissible(whole, ns[k], ms[k], installed) {
      if k > 0 { assert ns[k] == ns[1..][k - 1] && ms[k] == ms[1..][k - 1]; }
    }
  }

  lemma AdmissibleIds(ns: seq<Node>, ms: seq<Node>, installed: multiset<Id>, whole: multiset<Id>)
    requires AdmissibleAll(whole, ns, ms, installed)
    ensures forall y :: y in IdsAll(ms) && y !in installed ==> y in IdsAll(ns) || y !in whole
  {
    forall y | y in IdsAll(ms) && y !in installed ensures y in IdsAll(ns) || y !in whole {
      var k := IdsAllOwner(ms, y);
      assert Admissible(whole, ns[k], ms[k], installed);
      IdsAllMember(ns, k);
    }
  }

  lemma {:induction false} ReplacedAt(ns: seq<Node>, t: Id, m: Node) returns (at: nat)
    requires FindIn(ns, t).Some?
    ensures at < |ns| && forall l :: 0 <= l < |ns| && l != at ==> ReplaceIn(ns, t, m)[l] == ns[l]
  {
    if FindNode(ns[0], t).Some? {
      at := 0;
    } else {
      var later := ReplacedAt(ns[1..], t, m);
      at := later + 1;
      OneFurther(ns, ReplaceIn(ns[1..], t, m), later);
      assert ReplaceIn(ns, t, m) == [ns[0]] + ReplaceIn(ns[1..], t, m);
    }
  }

  lemma OneFurther(ns: seq<Node>, later: seq<Node>, at: nat)
    requires ns != [] && |later| == |ns| - 1
    requires forall l :: 0 <= l < |later| && l != at ==> later[l] == ns[1..][l]
    ensures forall l :: 0 <= l < |ns| && l != at + 1 ==> ([ns[0]] + later)[l] == ns[l]
  {
    forall l | 0 <= l < |ns| && l != at + 1 ensures ([ns[0]] + later)[l] == ns[l] {
      if l > 0 { assert ns[1..][l - 1] == ns[l]; }
    }
  }

  lemma SharesKept(ns: seq<Node>, ms: seq<Node>, at: nat, installed: multiset<Id>, whole: multiset<Id>)
    requires SharesAll(ns, installed) && IdsAll(ns) <= whole && |ns| == |ms|
    requires forall k :: 0 <= k < |ns| ==> Admissible(whole, ns[k], ms[k], installed)
    requires forall l :: 0 <= l < |ns| && l != at ==> ms[l] == ns[l]
    ensures SharesAll(ms, installed)
  {
    forall i, j | 0 <= i < j < |ms| ensures Shares(ms[i], ms[j], installed) {
      IdsAllMember(ns, i);
      IdsAllMember(ns, j);
      PairShares(ns[i], ns[j], ms[i], ms[j], installed, whole);
    }
  }

  lemma PairShares(c: Node, d: Node, c': Node, d': Node, installed: multiset<Id>, whole: multiset<Id>)
    requires Shares(c, d, installed) && Ids(c) <= whole && Ids(d) <= whole
    requires Admissible(whole, c, c', installed) && Admissible(whole, d, d', installed)
    requires c' == c || d' == d
    ensures Shares(c', d', installed)
  {
  }

  // ----- what each op makes of a tame tree -----

  lemma SharesSlice(ns: seq<Node>, i: nat, installed: multiset<Id>)
    requires SharesAll(ns, installed) && i <= |ns|
    ensures SharesAll(ns[i..], installed) && SharesAll(ns[..i], installed)
  {
    forall j, k | 0 <= j < k < |ns[i..]| ensures Shares(ns[i..][j], ns[i..][k], installed) {
      assert Shares(ns[i + j], ns[i + k], installed);
    }
  }

  lemma SharesConcat(ns: seq<Node>, ms: seq<Node>, installed: multiset<Id>)
    requires SharesAll(ns, installed) && SharesAll(ms, installed)
    requires forall c, d :: c in ns && d in ms ==> Shares(c, d, installed)
    ensures SharesAll(ns + ms, installed)
  {
    forall j, k | 0 <= j < k < |ns + ms| ensures Shares((ns + ms)[j], (ns + ms)[k], installed) {
      if k < |ns| {
        assert Shares(ns[j], ns[k], installed);
      } else if j >= |ns| {
        assert Shares(ms[j - |ns|], ms[k - |ns|], installed);
      }
    }
  }

  lemma SharesAcross(ns: seq<Node>, ms: seq<Node>, c: Node, d: Node, installed: multiset<Id>)
    requires SharesAll(ns + ms, installed) && c in ns && d in ms
    ensures Shares(c, d, installed)
  {
    var j :| 0 <= j < |ns| && ns[j] == c;
    var k :| 0 <= k < |ms| && ms[k] == d;
    assert Shares((ns + ms)[j], (ns + ms)[|ns| + k], installed);
  }

  lemma TameMembers(ns: seq<Node>, installed: multiset<Id>)
    requires forall c :: c in ns ==> Tame(c, installed)
    ensures TameAll(ns, installed)
  {
    TameAt(ns, installed);
  }

  lemma MembersTame(ns: seq<Node>, installed: multiset<Id>)
    requires TameAll(ns, installed)
    ensures forall c :: c in ns ==> Tame(c, installed)
  {
    TameAt(ns, installed);
  }

  lemma InIdsAll(ns: seq<Node>, c: Node, y: Id)
    requires c in ns && y in Ids(c)
    ensures y in IdsAll(ns)
  {
    var i :| 0 <= i < |ns| && ns[i] == c;
    IdsAllMember(ns, i);
  }

  lemma SharesMore(ns: seq<Node>, installed: multiset<Id>, more: multiset<Id>)
    requires SharesAll(ns, installed) && forall y :: y in installed ==> y in more
    ensures SharesAll(ns, more)
  {
    forall j, k | 0 <= j < k < |ns| ensures Shares(ns[j], ns[k], more) { assert Shares(ns[j], ns[k], installed); }
  }

  lemma SharesInstalled(ns: seq<Node>, more: multiset<Id>)
    requires forall c :: c in ns ==> forall y :: y in Ids(c) ==> y in more
    ensures SharesAll(ns, more)
  {
    forall j, k | 0 <= j < k < |ns| ensures Shares(ns[j], ns[k], more) { assert ns[j] in ns; }
  }

  /** A node rebuilt over sub-nodes that are its own or wholly installed stays tame. */
  lemma RebuiltTame(x: Node, m: Node, kept: seq<Node>, added: seq<Node>, installed: multiset<Id>, more: multiset<Id>)
    requires Tame(x, installed) && m.id == x.id && forall y :: y in installed ==> y in more
    requires forall y :: y in IdsAll(added) ==> y in more
    requires ChildNodes(m) == added + kept || ChildNodes(m) == kept + added
    requires SharesAll(kept, installed) && forall c :: c in kept ==> c in ChildNodes(x)
    ensures Tame(m, more)
    ensures forall y :: y in Ids(m) && y !in more ==> y in Ids(x)
  {
    TameMore(x, installed, more);
    MembersTame(ChildNodes(x), more);
    forall c | c in added ensures Tame(c, more) && forall y :: y in Ids(c) ==> y in more {
      forall y | y in Ids(c) ensures y in more { InIdsAll(added, c, y); }
      InstalledTame(c, more);
    }
    TameMembers(ChildNodes(m), more);
    SharesMore(kept, installed, more);
    SharesInstalled(added, more);
    SharesConcat(kept, added, more);
    SharesConcat(added, kept, more);
    forall y | y in IdsAll(ChildNodes(m)) && y !in more ensures y in IdsAll(ChildNodes(x)) {
      var i := IdsAllOwner(ChildNodes(m), y);
      var c := ChildNodes(m)[i];
      if c in added { InIdsAll(added, c, y); } else { InIdsAll(ChildNodes(x), c, y); }
    }
  }

  /** The sub-nodes an edit keeps, a stretch of the node's own, and those it installs. */
  lemma EditedParts(tables: FieldTables, op: TreeOp, x: Node) returns (k: nat, l: nat, added: seq<Node>)
    requires IsNodeEdit(op) && Edited(tables, op, x).Ok?
    ensures k <= l <= |ChildNodes(x)| && added == InsertedNodes(op)
    ensures var m, kept := Edited(tables, op, x).value, ChildNodes(x)[k..l];
      m.id == x.id && (ChildNodes(m) == added + kept || ChildNodes(m) == kept + added)
  {
    added := InsertedNodes(op);
    if op.EditNode? {
      k := KindEditParts(tables, op, x);
      l := |ChildNodes(x)|;
    } else if op.UpdateState? {
      k := 0;
      l := StateEditParts(tables, op, x);
    } else {
      k, l := 0, |ChildNodes(x)|;
      OtherEditsKeep(tables, op, x);
      assert ChildNodes(x)[0..l] == ChildNodes(x) && ChildNodes(x) + [] == ChildNodes(x);
    }
  }

  lemma KindEditParts(tables: FieldTables, op: TreeOp, x: Node) returns (k: nat)
    requires op.EditNode? && Edited(tables, op, x).Ok?
    ensures k <= |ChildNodes(x)|
    ensures var m := Edited(tables, op, x).value;
      m.id == x.id && ChildNodes(m) == InsertedNodes(op) + ChildNodes(x)[k..|ChildNodes(x)|]
  {
    k := |KindChildren(x.kind)|;
    var rest := OptionSeq(x.state.onLoading) + OptionSeq(x.state.onEmpty);
    assert ChildNodes(x) == KindChildren(x.kind) + rest;
    assert ChildNodes(x)[k..|ChildNodes(x)|] == rest;
  }

  lemma StateEditParts(tables: FieldTables, op: TreeOp, x: Node) returns (l: nat)
    requires op.UpdateState? && Edited(tables, op, x).Ok?
    ensures l <= |ChildNodes(x)|
    ensures var m := Edited(tables, op, x).value;
      m.id == x.id && ChildNodes(m) == ChildNodes(x)[0..l] + InsertedNodes(op)
  {
    l := |KindChildren(x.kind)|;
    var rest := OptionSeq(x.state.onLoading) + OptionSeq(x.state.onEmpty);
    assert ChildNodes(x) == KindChildren(x.kind) + rest;
    assert ChildNodes(x)[0..l] == KindChildren(x.kind);
  }

  lemma OtherEditsKeep(tables: FieldTables, op: TreeOp, x: Node)
    requires IsNodeEdit(op) && !op.EditNode? && !op.UpdateState? && Edited(tables, op, x).Ok?
    ensures Edited(tables, op, x).value.id == x.id && ChildNodes(Edited(tables, op, x).value) == ChildNodes(x)
    ensures InsertedNodes(op) == []
  {
  }

  lemma EditedTame(tables: FieldTables, op: TreeOp, x: Node, installed: multiset<Id>, whole: multiset<Id>)
    requires IsNodeEdit(op) && Tame(x, installed) && Edited(tables, op, x).Ok?
    ensures var m, more := Edited(tables, op, x).value, installed + IdsAll(InsertedNodes(op));
      Tame(m, more) && Admissible(whole, x, m, more)
  {
    var k, l, added := EditedParts(tables, op, x);
    var kept := ChildNodes(x)[k..l];
    KeptShares(x, k, l, installed);
    RebuiltTame(x, Edited(tables, op, x).value, kept, added, installed, installed + IdsAll(InsertedNodes(op)));
  }

  lemma EditTame(tables: FieldTables, op: TreeOp, root: Node, installed: multiset<Id>)
    requires IsNodeEdit(op) && Tame(root, installed) && EditAt(tables, op, root).Ok?
    ensures Tame(EditAt(tables, op, root).value, installed + IdsAll(InsertedNodes(op)))
  {
    var more := installed + IdsAll(InsertedNodes(op));
    var x := FindNode(root, op.target).value;
    EditedAtTarget(tables, op, root, x);
    FoundTame(root, op.target, installed);
    EditedTame(tables, op, x, installed, Ids(root));
    TameMore(root, installed, more);
    ReplaceTame(root, op.target, Edited(tables, op, x).value, more, Ids(root));
  }

  lemma EditedAtTarget(tables: FieldTables, op: TreeOp, root: Node, x: Node)
    requires IsNodeEdit(op) && EditAt(tables, op, root).Ok? && FindNode(root, op.target) == Some(x)
    ensures Edited(tables, op, x).Ok?
    ensures EditAt(tables, op, root).value == Replace(root, op.target, Edited(tables, op, x).value)
  {
  }

  lemma KeptShares(x: Node, k: nat, l: nat, installed: multiset<Id>)
    requires Tame(x, installed) && k <= l <= |ChildNodes(x)|
    ensures SharesAll(ChildNodes(x)[k..l], installed)
    ensures forall c :: c in ChildNodes(x)[k..l] ==> c in ChildNodes(x)
  {
    SharesSlice(ChildNodes(x), l, installed);
    SharesSlice(ChildNodes(x)[..l], k, installed);
    assert ChildNodes(x)[..l][k..] == ChildNodes(x)[k..l];
  }

  lemma ApartShares(c: Node, child: Node, installed: multiset<Id>)
    requires Ids(child) !! Ids(c)
    ensures Shares(c, child, installed) && Shares(child, c, installed)
  {
  }

  lemma ApartSharesAll(ns: seq<Node>, child: Node, installed: multiset<Id>)
    requires Ids(child) !! IdsAll(ns)
    ensures forall c :: c in ns ==> Shares(c, child, installed) && Shares(child, c, installed)
  {
    forall c | c in ns ensures Shares(c, child, installed) && Shares(child, c, installed) {
      var i :| 0 <= i < |ns| && ns[i] == c;
      IdsAllMember(ns, i);
      SubBag(Ids(child), IdsAll(ns), Ids(c));
      ApartShares(c, child, installed);
    }
  }

  lemma TameParts(n: Node, cs: seq<Node>, installed: multiset<Id>)
    requires ChildNodes(n) == cs
    ensures Tame(n, installed) <==>
      (n.id in IdsAll(cs) ==> n.id in installed) && SharesAll(cs, installed) && TameAll(cs, installed)
  {
  }

  lemma AppendedTame(q: Node, child: Node, installed: multiset<Id>)
    requires Tame(q, installed) && q.kind.Layout? && Tame(child, installed) && Ids(child) !! Ids(q)
    ensures Tame(WithLayoutChildren(q, q.kind.children + [child]), installed)
  {
    var kids, rest := q.kind.children, OptionSeq(q.state.onLoading) + OptionSeq(q.state.onEmpty);
    var m := WithLayoutChildren(q, kids + [child]);
    LayoutNodes(q, kids + [child]);
    SeatTame(q, m, kids, child, rest, installed);
  }

  lemma SeatTame(q: Node, m: Node, kids: seq<Node>, child: Node, rest: seq<Node>, installed: multiset<Id>)
    requires ChildNodes(q) == kids + rest && ChildNodes(m) == kids + [child] + rest && m.id == q.id
    requires Tame(q, installed) && Tame(child, installed) && Ids(child) !! Ids(q)
    ensures Tame(m, installed)
  {
    TameParts(q, kids + rest, installed);
    SubBag(Ids(child), Ids(q), IdsAll(kids + rest));
    AppendedMembers(kids, child, rest, installed);
    AppendedRoot(q, kids, child, rest);
    TameParts(m, kids + [child] + rest, installed);
  }

  lemma AppendedMembers(kids: seq<Node>, child: Node, rest: seq<Node>, installed: multiset<Id>)
    requires SharesAll(kids + rest, installed) && TameAll(kids + rest, installed) && Tame(child, installed)
    requires Ids(child) !! IdsAll(kids + rest)
    ensures SharesAll(kids + [child] + rest, installed) && TameAll(kids + [child] + rest, installed)
  {
    ApartSharesAll(kids + rest, child, installed);
    AppendedShares(kids, child, rest, installed);
    MembersTame(kids + rest, installed);
    TameMembers(kids + [child] + rest, installed);
  }

  lemma AppendedRoot(q: Node, kids: seq<Node>, child: Node, rest: seq<Node>)
    requires ChildNodes(q) == kids + rest && Ids(child) !! Ids(q)
    ensures q.id in IdsAll(kids + [child] + rest) ==> q.id in IdsAll(ChildNodes(q))
  {
    IdsAllConcat(kids, rest);
    AppendedBag(kids, child, rest);
    NotInBoth(Ids(child), Ids(q), q.id);
  }

  lemma AppendedShares(kids: seq<Node>, child: Node, rest: seq<Node>, installed: multiset<Id>)
    requires SharesAll(kids + rest, installed)
    requires forall c :: c in kids + rest ==> Shares(c, child, installed) && Shares(child, c, installed)
    ensures SharesAll(kids + [child] + rest, installed)
  {
    SharesSlice(kids + rest, |kids|, installed);
    assert (kids + rest)[..|kids|] == kids && (kids + rest)[|kids|..] == rest;
    SharesConcat(kids, [child], installed);
    forall c, d | c in kids + [child] && d in rest ensures Shares(c, d, installed) {
      if c in kids { SharesAcross(kids, rest, c, d, installed); } else { assert d in kids + rest; }
    }
    SharesConcat(kids + [child], rest, installed);
  }

  lemma InsertTame(root: Node, p: Id, child: Node, installed: multiset<Id>)
    requires Tame(root, installed) && Tame(child, installed) && Insert(root, p, child).Ok?
    ensures Tame(Insert(root, p, child).value, installed)
  {
    var q := FindNode(root, p).value;
    var m := WithLayoutChildren(q, q.kind.children + [child]);
    FindNodeSound(root, p);
    FoundTame(root, p, installed);
    SubBag(Ids(child), Ids(root), Ids(q));
    AppendedTame(q, child, installed);
    AppendedIds(q, q.kind.children, child);
    assert WithLayoutChildren(q, q.kind.children) == q;
    assert Admissible(Ids(root), q, m, installed);
    ReplaceTame(root, p, m, installed, Ids(root));
  }

  lemma AppendedBag(kids: seq<Node>, child: Node, rest: seq<Node>)
    ensures IdsAll(kids + [child] + rest) == IdsAll(kids) + Ids(child) + IdsAll(rest)
  {
    IdsAllConcat(kids + [child], rest);
    IdsAllConcat(kids, [child]);
    assert [child][1..] == [];
    assert IdsAll([child]) == Ids(child) + IdsAll([]);
  }

  lemma {:induction false} WithoutMembers(ns: seq<Node>, t: Id)
    ensures forall c :: c in Without(ns, t) ==> c in ns && c.id != t
  {
    if ns != [] { WithoutMembers(ns[1..], t); }
  }

  lemma {:induction false} WithoutShares(ns: seq<Node>, t: Id, installed: multiset<Id>)
    requires SharesAll(ns, installed)
    ensures SharesAll(Without(ns, t), installed)
  {
    if ns != [] {
      SharesSlice(ns, 1, installed);
      WithoutShares(ns[1..], t, installed);
      if ns[0].id != t {
        WithoutMembers(ns[1..], t);
        assert ns == [ns[0]] + ns[1..];
        forall c, d | c in [ns[0]] && d in Without(ns[1..], t) ensures Shares(c, d, installed) {
          SharesAcross([ns[0]], ns[1..], c, d, installed);
        }
        SharesConcat([ns[0]], Without(ns[1..], t), installed);
      }
    }
  }

  lemma SelectedShares(kids: seq<Node>, rest: seq<Node>, ms: seq<Node>, installed: multiset<Id>)
    requires SharesAll(kids + rest, installed) && SharesAll(ms, installed) && forall c :: c in ms ==> c in kids
    ensures SharesAll(ms + rest, installed)
  {
    SharesSlice(kids + rest, |kids|, installed);
    assert (kids + rest)[|kids|..] == rest;
    forall c, d | c in ms && d in rest ensures Shares(c, d, installed) { SharesAcross(kids, rest, c, d, installed); }
    SharesConcat(ms, rest, installed);
  }

  /** A layout node over a selection of its own children stays tame. */
  lemma SelectedTame(root: Node, p: Id, ms: seq<Node>, installed: multiset<Id>)
    requires Tame(root, installed) && FindNode(root, p).Some? && FindNode(root, p).value.kind.Layout?
    requires forall c :: c in ms ==> c in FindNode(root, p).value.kind.children
    requires SharesAll(ms, installed)
    ensures Tame(Replace(root, p, WithLayoutChildren(FindNode(root, p).value, ms)), installed)
  {
    var q := FindNode(root, p).value;
    var kids, rest := q.kind.children, OptionSeq(q.state.onLoading) + OptionSeq(q.state.onEmpty);
    var m := WithLayoutChildren(q, ms);
    FindNodeSound(root, p);
    FoundTame(root, p, installed);
    LayoutNodes(q, ms);
    SelectedShares(kids, rest, ms, installed);
    assert ms + rest + [] == ms + rest && IdsAll([]) == multiset{};
    RebuiltTame(q, m, ms + rest, [], installed, installed);
    ReplaceTame(root, p, m, installed, Ids(root));
  }

  lemma RemoveTame(root: Node, t: Id, installed: multiset<Id>)
    requires Tame(root, installed) && Remove(root, t).Ok?
    ensures Tame(Remove(root, t).value, installed)
  {
    var p := FindLayoutParent(root, t).value.id;
    var q := FindNode(root, p).value;
    var kids := q.kind.children;
    FoundTame(root, p, installed);
    LayoutShares(q, installed);
    WithoutMembers(kids, t);
    WithoutShares(kids, t, installed);
    SelectedTame(root, p, Without(kids, t), installed);
  }

  lemma MoveTame(root: Node, t: Id, p: Id, installed: multiset<Id>)
    requires Tame(root, installed) && Move(root, t, p).Ok?
    ensures Tame(Move(root, t, p).value, installed)
  {
    FoundTame(root, t, installed);
    RemoveTame(root, t, installed);
    InsertTame(Remove(root, t).value, p, FindNode(root, t).value, installed);
  }

  lemma {:induction false} PickShape(ns: seq<Node>, order: seq<Id>)
    requires forall id :: id in order ==> id in IdSeq(ns)
    ensures |Pick(ns, order)| == |order|
    ensures forall i :: 0 <= i < |order| ==> Pick(ns, order)[i].id == order[i] && Pick(ns, order)[i] in ns
  {
    if order != [] {
      assert order[0] in order;
      FirstExists(ns, order[0]);
      PickShape(ns, order[1..]);
    }
  }

  lemma {:induction false} FirstExists(ns: seq<Node>, id: Id)
    requires id in IdSeq(ns)
    ensures FirstWithId(ns, id).Some? && FirstWithId(ns, id).value in ns && FirstWithId(ns, id).value.id == id
  {
    var k :| 0 <= k < |ns| && ns[k].id == id;
    if k > 0 && ns[0].id != id {
      assert IdSeq(ns[1..])[k - 1] == id;
      FirstExists(ns[1..], id);
    }
  }

  lemma ReorderShares(kids: seq<Node>, order: seq<Id>, installed: multiset<Id>)
    requires SharesAll(kids, installed) && multiset(order) == multiset(IdSeq(kids))
    ensures SharesAll(Pick(kids, order), installed) && forall c :: c in Pick(kids, order) ==> c in kids
  {
    var ids := IdSeq(kids);
    forall id | id in order ensures id in ids { assert id in multiset(order) && id in multiset(ids); }
    PickShape(kids, order);
    var ms := Pick(kids, order);
    forall i, j | 0 <= i < j < |ms| ensures Shares(ms[i], ms[j], installed) {
      if ms[i].id == ms[j].id {
        RepeatedCounts(order, i, j);
        var k, l := TwoPositions(ids, order[i]);
        assert Shares(kids[k], kids[l], installed);
        assert kids[k].id in Ids(kids[k]) && kids[l].id in Ids(kids[l]);
      } else {
        var k :| 0 <= k < |kids| && kids[k] == ms[i];
        var l :| 0 <= l < |kids| && kids[l] == ms[j];
        assert if k < l then Shares(kids[k], kids[l], installed) else Shares(kids[l], kids[k], installed);
      }
    }
  }

  lemma FirstShares(kids: seq<Node>, rest: seq<Node>, installed: multiset<Id>)
    requires SharesAll(kids + rest, installed)
    ensures SharesAll(kids, installed)
  {
    SharesSlice(kids + rest, |kids|, installed);
    assert (kids + rest)[..|kids|] == kids;
  }

  lemma LayoutShares(q: Node, installed: multiset<Id>)
    requires Tame(q, installed) && q.kind.Layout?
    ensures SharesAll(q.kind.children, installed)
  {
    var kids, rest := q.kind.children, OptionSeq(q.state.onLoading) + OptionSeq(q.state.onEmpty);
    LayoutNodes(q, kids);
    FirstShares(kids, rest, installed);
  }

  lemma ReorderTame(root: Node, p: Id, order: seq<Id>, installed: multiset<Id>)
    requires Tame(root, installed) && Reorder(root, p, order).Ok?
    ensures Tame(Reorder(root, p, order).value, installed)
  {
    var q := FindNode(root, p).value;
    var kids := q.kind.children;
    FoundTame(root, p, installed);
    LayoutShares(q, installed);
    Ordinal.SortComparesBags(IdSeq(kids), order);
    ReorderShares(kids, order, installed);
    SelectedTame(root, p, Pick(kids, order), installed);
  }

  lemma {:induction false} ReduceTame(tables: FieldTables, op: TreeOp, root: Node, installed: multiset<Id>)
    requires Tame(root, installed) && Reduce(tables, op, root).Ok?
    ensures Tame(Reduce(tables, op, root).value, installed + IdsAll(InsertedNodes(op)))
    decreases op
  {
    var more := installed + IdsAll(InsertedNodes(op));
    match op
    case InsertChild(p, child) =>
      InstalledIds(child);
      TameMore(root, installed, more);
      InstalledTame(child, more);
      InsertTame(root, p, child, more);
    case RemoveNode(t) =>
      RemoveTame(root, t, installed);
      assert more == installed;
    case MoveNode(t, p) =>
      MoveTame(root, t, p, installed);
      assert more == installed;
    case ReorderChildren(p, order) =>
      ReorderTame(root, p, order, installed);
      assert more == installed;
    case ReplaceRoot(node) =>
      InstalledIds(node);
      InstalledTame(node, more);
    case Batch(ops) => ReduceAllTame(tables, ops, 0, root, installed);
    case _ => EditTame(tables, op, root, installed);
  }

  lemma InstalledIds(n: Node)
    ensures IdsAll([n]) == Ids(n)
  {
    assert [n][1..] == [];
    assert IdsAll([n]) == Ids(n) + IdsAll([]);
  }

  lemma {:induction false} ReduceAllTame(tables: FieldTables, ops: seq<TreeOp>, index: nat, root: Node,
                                         installed: multiset<Id>)
    requires Tame(root, installed) && ReduceAll(tables, ops, index, root).Ok?
    ensures Tame(ReduceAll(tables, ops, index, root).value, installed + IdsAll(InsertedByAll(ops)))
    decreases ops
  {
    if ops == [] {
      assert installed + IdsAll([]) == installed;
    } else {
      var first := Reduce(tables, ops[0], root);
      var more := installed + IdsAll(InsertedNodes(ops[0]));
      ReduceTame(tables, ops[0], root, installed);
      ReduceAllTame(tables, ops[1..], index + 1, first.value, more);
      IdsAllConcat(InsertedNodes(ops[0]), InsertedByAll(ops[1..]));
      assert more + IdsAll(InsertedByAll(ops[1..])) == installed + IdsAll(InsertedByAll(ops));
    }
  }

  lemma AcceptedMeans(tables: FieldTables, tree: Node, op: TreeOp)
    requires Apply(tables, tree, op).Ok?
    ensures Reduce(tables, op, tree) == Apply(tables, tree, op)
    ensures OpCanGrow(op) ==> WithinLimits(Apply(tables, tree, op).value)
    ensures forall x :: x in IdsAll(InsertedNodes(op)) ==> Ids(Apply(tables, tree, op).value)[x] <= 1
  {
  }

  /** Every accepted op, batches included, takes a tree of unique ids to a tree of unique ids. */
  lemma ApplyKeepsIdsUnique(tables: FieldTables, tree: Node, op: TreeOp)
    requires UniqueIds(tree) && Apply(tables, tree, op).Ok?
    ensures UniqueIds(Apply(tables, tree, op).value)
  {
    var r := Apply(tables, tree, op).value;
    var installed := IdsAll(InsertedNodes(op));
    AcceptedMeans(tables, tree, op);
    UniqueTame(tree, multiset{});
    ReduceTame(tables, op, tree, multiset{});
    assert multiset{} + installed == installed;
    TameUnique(r, installed, Ids(r));
  }

  // ----- the wire limits -----

  lemma SliceMetrics(ns: seq<Node>, k: nat, l: nat)
    requires k <= l <= |ns|
    ensures CountAll(ns[k..l]) <= CountAll(ns) && DepthAll(ns[k..l]) <= DepthAll(ns)
  {
    PrefixMetrics(ns, l);
    SuffixMetrics(ns[..l], k);
    assert ns[..l][k..] == ns[k..l];
  }

  lemma PrefixMetrics(ns: seq<Node>, l: nat)
    requires l <= |ns|
    ensures CountAll(ns[..l]) <= CountAll(ns) && DepthAll(ns[..l]) <= DepthAll(ns)
  {
    var a, b := ns[..l], ns[l..];
    assert a + b == ns;
    PartMetrics(a, b);
  }

  lemma SuffixMetrics(ns: seq<Node>, k: nat)
    requires k <= |ns|
    ensures CountAll(ns[k..]) <= CountAll(ns) && DepthAll(ns[k..]) <= DepthAll(ns)
  {
    var a, b := ns[..k], ns[k..];
    assert a + b == ns;
    PartMetrics(a, b);
  }

  lemma PartMetrics(a: seq<Node>, b: seq<Node>)
    ensures CountAll(a) <= CountAll(a + b) && DepthAll(a) <= DepthAll(a + b)
    ensures CountAll(b) <= CountAll(a + b) && DepthAll(b) <= DepthAll(a + b)
  {
    CountAllConcat(a, b);
    DepthAllConcat(a, b);
  }

  lemma EditShrinks(tables: FieldTables, op: TreeOp, root: Node)
    requires IsNodeEdit(op) && InsertedNodes(op) == [] && EditAt(tables, op, root).Ok?
    ensures var r, x := EditAt(tables, op, root).value, FindNode(root, op.target).value;
      Count(r) == Count(root) + Count(Edited(tables, op, x).value) - Count(x)
      && Count(r) <= Count(root) && Depth(r) <= Depth(root)
  {
    var m := Edited(tables, op, FindNode(root, op.target).value).value;
    FindNodeSound(root, op.target);
    EditedSmaller(tables, op, FindNode(root, op.target).value);
    ReplaceBag(root, op.target, m);
    ReplaceDepth(root, op.target, m);
  }

  /** An edit that brings no node of its own leaves the edited node no larger and no deeper. */
  lemma EditedSmaller(tables: FieldTables, op: TreeOp, x: Node)
    requires IsNodeEdit(op) && InsertedNodes(op) == [] && Edited(tables, op, x).Ok?
    ensures Count(Edited(tables, op, x).value) <= Count(x) && Depth(Edited(tables, op, x).value) <= Depth(x)
  {
    var k, l, added := EditedParts(tables, op, x);
    var kept := ChildNodes(x)[k..l];
    SliceMetrics(ChildNodes(x), k, l);
    assert added + kept == kept && kept + added == kept;
  }

  /** A layout node found in the tree, over other children. */
  lemma RelaidCount(root: Node, p: Id, ms: seq<Node>)
    requires FindNode(root, p).Some? && FindNode(root, p).value.kind.Layout?
    ensures var q := FindNode(root, p).value;
      Count(Replace(root, p, WithLayoutChildren(q, ms))) + CountAll(q.kind.children) == Count(root) + CountAll(ms)
  {
    var q := FindNode(root, p).value;
    LayoutParts(q, q.kind.children);
    LayoutParts(q, ms);
    assert WithLayoutChildren(q, q.kind.children) == q;
    ReplaceBag(root, p, WithLayoutChildren(q, ms));
  }

  lemma RelaidDepth(root: Node, p: Id, ms: seq<Node>)
    requires FindNode(root, p).Some? && FindNode(root, p).value.kind.Layout?
    requires DepthAll(ms) <= DepthAll(FindNode(root, p).value.kind.children)
    ensures Depth(Replace(root, p, WithLayoutChildren(FindNode(root, p).value, ms))) <= Depth(root)
  {
    var q := FindNode(root, p).value;
    RelaidNoDeeper(q, ms);
    ReplaceDepth(root, p, WithLayoutChildren(q, ms));
  }

  lemma RelaidNoDeeper(q: Node, ms: seq<Node>)
    requires q.kind.Layout? && DepthAll(ms) <= DepthAll(q.kind.children)
    ensures Depth(WithLayoutChildren(q, ms)) <= Depth(q)
  {
    LayoutParts(q, ms);
    LayoutParts(q, q.kind.children);
    assert WithLayoutChildren(q, q.kind.children) == q;
  }

  lemma {:induction false} WithoutShrinks(ns: seq<Node>, t: Id)
    ensures CountAll(Without(ns, t)) <= CountAll(ns) && DepthAll(Without(ns, t)) <= DepthAll(ns)
  {
    if ns != [] { WithoutShrinks(ns[1..], t); }
  }

  ghost predicate SiblingsDistinct(ns: seq<Node>)
  {
    forall j, k :: 0 <= j < k < |ns| ==> ns[j].id != ns[k].id
  }

  /** For each child the first of its id: what restating the children's own order makes of them. */
  function FirstHolders(kids: seq<Node>): seq<Node>
  {
    Pick(kids, IdSeq(kids))
  }

  lemma {:induction false} PickConcat(ns: seq<Node>, s: seq<Id>, t: seq<Id>)
    ensures Pick(ns, s + t) == Pick(ns, s) + Pick(ns, t)
  {
    if s == [] {
      assert s + t == t;
    } else {
      assert (s + t)[1..] == s[1..] + t;
      PickConcat(ns, s[1..], t);
    }
  }

  lemma DropOne(s: seq<Id>, i: nat)
    requires i < |s|
    ensures multiset(s[..i] + s[i + 1..]) == multiset(s) - multiset{s[i]}
  {
    assert s == s[..i] + [s[i]] + s[i + 1..];
  }

  lemma DropCount(ns: seq<Node>, i: nat)
    requires i < |ns|
    ensures CountAll(ns) == Count(ns[i]) + CountAll(ns[..i] + ns[i + 1..])
  {
    CountAllSplit(ns, i);
    CountAllConcat(ns[..i], ns[i + 1..]);
  }

  lemma HeadPosition(ids: seq<Id>, order: seq<Id>) returns (i: nat)
    requires multiset(order) == multiset(ids) && order != []
    ensures i < |ids| && ids[i] == order[0]
    ensures multiset(order[1..]) == multiset(ids[..i] + ids[i + 1..])
  {
    i := HeadHeld(ids, order);
    DropOne(ids, i);
    DropFirst(order);
  }

  lemma HeadHeld(ids: seq<Id>, order: seq<Id>) returns (i: nat)
    requires multiset(order) == multiset(ids) && order != []
    ensures i < |ids| && ids[i] == order[0]
  {
    assert order[0] in multiset(ids);
    i :| 0 <= i < |ids| && ids[i] == order[0];
  }

  lemma DropFirst(s: seq<Id>)
    requires s != []
    ensures multiset(s[1..]) == multiset(s) - multiset{s[0]}
  {
    DropOne(s, 0);
    assert s[..0] + s[1..] == s[1..];
  }

  lemma PickCountDrop(ns: seq<Node>, s: seq<Id>, i: nat)
    requires i < |s|
    ensures CountAll(Pick(ns, s)) == CountAll(Pick(ns, [s[i]])) + CountAll(Pick(ns, s[..i] + s[i + 1..]))
  {
    assert s == s[..i] + ([s[i]] + s[i + 1..]);
    PickConcat(ns, s[..i], [s[i]] + s[i + 1..]);
    PickConcat(ns, [s[i]], s[i + 1..]);
    PickConcat(ns, s[..i], s[i + 1..]);
    var x, y, z := Pick(ns, s[..i]), Pick(ns, [s[i]]), Pick(ns, s[i + 1..]);
    CountAllConcat(x, y + z);
    CountAllConcat(y, z);
    CountAllConcat(x, z);
  }

  /** How many nodes an order picks depends only on which ids it lists how often. */
  lemma {:induction false} PickCountsBags(ns: seq<Node>, s: seq<Id>, t: seq<Id>)
    requires multiset(s) == multiset(t)
    ensures CountAll(Pick(ns, s)) == CountAll(Pick(ns, t))
    decreases |t|
  {
    if t == [] {
      assert |multiset(s)| == |s|;
    } else {
      var i := HeadPosition(s, t);
      PickCountDrop(ns, s, i);
      PickCountHead(ns, t);
      PickCountsBags(ns, s[..i] + s[i + 1..], t[1..]);
    }
  }

  lemma PickCountHead(ns: seq<Node>, t: seq<Id>)
    requires t != []
    ensures CountAll(Pick(ns, t)) == CountAll(Pick(ns, [t[0]])) + CountAll(Pick(ns, t[1..]))
  {
    PickCountDrop(ns, t, 0);
    assert t[..0] + t[1..] == t[1..];
  }

  lemma {:induction false} FirstNoDeeper(ns: seq<Node>, id: Id)
    ensures DepthAll(OptionSeq(FirstWithId(ns, id))) <= DepthAll(ns)
  {
    if ns != [] && ns[0].id != id {
      FirstNoDeeper(ns[1..], id);
    } else if ns != [] {
      assert [ns[0]][1..] == [];
    }
  }

  lemma {:induction false} PickNoDeeper(ns: seq<Node>, order: seq<Id>)
    ensures DepthAll(Pick(ns, order)) <= DepthAll(ns)
  {
    if order != [] {
      FirstNoDeeper(ns, order[0]);
      PickNoDeeper(ns, order[1..]);
      DepthAllConcat(OptionSeq(FirstWithId(ns, order[0])), Pick(ns, order[1..]));
    }
  }

  lemma DistinctHoldThemselves(kids: seq<Node>)
    requires SiblingsDistinct(kids)
    ensures FirstHolders(kids) == kids
  {
    forall m | m in kids ensures FirstWithId(kids, m.id) == Some(m) {
      var i :| 0 <= i < |kids| && kids[i] == m;
      FirstAt(kids, i);
    }
    PickExact(kids, kids);
  }

  /** On every tree an accepted reorder deepens nothing, and trades its children for their first holders. */
  lemma ReorderTrades(root: Node, p: Id, order: seq<Id>)
    requires Reorder(root, p, order).Ok?
    ensures var r, kids := Reorder(root, p, order).value, FindNode(root, p).value.kind.children;
      Count(r) + CountAll(kids) == Count(root) + CountAll(FirstHolders(kids)) && Depth(r) <= Depth(root)
  {
    var q := FindNode(root, p).value;
    var kids := q.kind.children;
    var ms := Pick(kids, order);
    Ordinal.SortComparesBags(IdSeq(kids), order);
    PickCountsBags(kids, order, IdSeq(kids));
    PickNoDeeper(kids, order);
    RelaidCount(root, p, ms);
    RelaidDepth(root, p, ms);
  }

  lemma FoundSiblingsDistinct(root: Node, p: Id)
    requires UniqueIds(root) && FindNode(root, p).Some? && FindNode(root, p).value.kind.Layout?
    ensures SiblingsDistinct(FindNode(root, p).value.kind.children)
  {
    var q := FindNode(root, p).value;
    FoundUnique(root, p);
    UniqueBelow(q);
    forall j, k | 0 <= j < k < |q.kind.children| ensures q.kind.children[j].id != q.kind.children[k].id {
      ChildPositions(q, j);
      ChildPositions(q, k);
      SiblingIdsDiffer(ChildNodes(q), j, k);
    }
  }

  lemma UncheckedUnique(tables: FieldTables, op: TreeOp, root: Node)
    requires UniqueIds(root) && InsertedNodes(op) == [] && Reduce(tables, op, root).Ok?
    ensures UniqueIds(Reduce(tables, op, root).value)
  {
    var r := Reduce(tables, op, root).value;
    UniqueTame(root, multiset{});
    ReduceTame(tables, op, root, multiset{});
    var none: multiset<Id> := multiset{};
    assert IdsAll([]) == none && none + none == none;
    TameUnique(r, multiset{}, Ids(r));
  }

  lemma {:induction false} CannotGrowInsertsNothing(op: TreeOp)
    requires !OpCanGrow(op)
    ensures InsertedNodes(op) == []
    decreases op
  {
    if op.Batch? { CannotGrowInsertsNothingAll(op.ops); }
  }

  lemma {:induction false} CannotGrowInsertsNothingAll(ops: seq<TreeOp>)
    requires !AnyCanGrow(ops)
    ensures InsertedByAll(ops) == []
    decreases ops
  {
    if ops != [] {
      CannotGrowInsertsNothing(ops[0]);
      CannotGrowInsertsNothingAll(ops[1..]);
    }
  }

  /** A restated order under which some child's place goes to a larger one of its id, by more than smaller
      ones save. */
  predicate Outweighs(op: TreeOp, root: Node)
  {
    op.ReorderChildren?
    && var q := FindNode(root, op.parentId);
       q.Some? && q.value.kind.Layout?
           && CountAll(FirstHolders(q.value.kind.children)) > CountAll(q.value.kind.children)
  }

  /** By how much an exempt op changes the children, or the node, it rewrites; over a batch, the sum of its
      steps, each where it falls. */
  function Growth(tables: FieldTables, op: TreeOp, root: Node): int
    requires !OpCanGrow(op)
    decreases op
  {
    if Reduce(tables, op, root).Err? then 0
    else if op.RemoveNode? then
      var kids := FindNode(root, FindLayoutParent(root, op.target).value.id).value.kind.children;
      CountAll(Without(kids, op.target)) - CountAll(kids)
    else if op.ReorderChildren? then
      var kids := FindNode(root, op.parentId).value.kind.children;
      CountAll(FirstHolders(kids)) - CountAll(kids)
    else if op.Batch? then GrowthAll(tables, op.ops, root)
    else
      var x := FindNode(root, op.target).value;
      Count(Edited(tables, op, x).value) - Count(x)
  }

  function GrowthAll(tables: FieldTables, ops: seq<TreeOp>, root: Node): int
    requires !AnyCanGrow(ops)
    decreases ops
  {
    if ops == [] then 0
    else
      var first := Reduce(tables, ops[0], root);
      Growth(tables, ops[0], root) + if first.Ok? then GrowthAll(tables, ops[1..], first.value) else 0
  }

  /** One step: it never deepens the tree, the tree's size moves with the children or node it rewrites, and
      those grow if and only if it restates the order of children whose first holders outweigh them. */
  lemma StepGrowth(tables: FieldTables, op: TreeOp, root: Node)
    requires !OpCanGrow(op) && !op.Batch? && Reduce(tables, op, root).Ok?
    ensures Depth(Reduce(tables, op, root).value) <= Depth(root)
    ensures Count(Reduce(tables, op, root).value) == Count(root) + Growth(tables, op, root)
    ensures Growth(tables, op, root) > 0 <==> Outweighs(op, root)
  {
    match op
    case RemoveNode(t) =>
      var p := FindLayoutParent(root, t).value.id;
      var kids := FindNode(root, p).value.kind.children;
      WithoutShrinks(kids, t);
      RelaidCount(root, p, Without(kids, t));
      RelaidDepth(root, p, Without(kids, t));
    case ReorderChildren(p, order) => ReorderTrades(root, p, order);
    case InsertChild(_, _) =>
    case MoveNode(_, _) =>
    case ReplaceRoot(_) =>
    case _ => EditShrinks(tables, op, root);
  }

  /** On every tree, unique ids or not, an accepted op that `apply` does not charge a walk, batches included,
      never deepens the tree, and it adds nodes if and only if its steps together grow what they rewrite. */
  lemma {:induction false} UncheckedShrinksExactly(tables: FieldTables, op: TreeOp, root: Node)
    requires !OpCanGrow(op) && Reduce(tables, op, root).Ok?
    ensures Depth(Reduce(tables, op, root).value) <= Depth(root)
    ensures Count(Reduce(tables, op, root).value) > Count(root) <==> Growth(tables, op, root) > 0
    ensures Count(Reduce(tables, op, root).value) == Count(root) + Growth(tables, op, root)
    decreases op
  {
    if op.Batch? { UncheckedAllExactly(tables, op.ops, 0, root); } else { StepGrowth(tables, op, root); }
  }

  lemma {:induction false} UncheckedAllExactly(tables: FieldTables, ops: seq<TreeOp>, index: nat, root: Node)
    requires !AnyCanGrow(ops) && ReduceAll(tables, ops, index, root).Ok?
    ensures var r := ReduceAll(tables, ops, index, root).value;
      Depth(r) <= Depth(root) && Count(r) == Count(root) + GrowthAll(tables, ops, root)
    decreases ops
  {
    if ops != [] {
      UncheckedShrinksExactly(tables, ops[0], root);
      UncheckedAllExactly(tables, ops[1..], index + 1, Reduce(tables, ops[0], root).value);
    }
  }

  /** Children of distinct ids hold themselves, so over them no reorder outweighs. */
  lemma DistinctNeverOutweighs(op: TreeOp, root: Node)
    requires op.ReorderChildren? && FindNode(root, op.parentId).Some? && FindNode(root, op.parentId).value.kind.Layout?
    requires SiblingsDistinct(FindNode(root, op.parentId).value.kind.children)
    ensures !Outweighs(op, root)
  {
    DistinctHoldThemselves(FindNode(root, op.parentId).value.kind.children);
  }

  /** The ops apply does not charge a walk, batches of them included, cannot grow a tree of unique ids. */
  lemma {:induction false} UncheckedShrinks(tables: FieldTables, op: TreeOp, root: Node)
    requires UniqueIds(root) && !OpCanGrow(op) && Reduce(tables, op, root).Ok?
    ensures var r := Reduce(tables, op, root).value; Count(r) <= Count(root) && Depth(r) <= Depth(root)
    decreases op
  {
    if op.Batch? {
      UncheckedAllShrink(tables, op.ops, 0, root);
    } else {
      StepGrowth(tables, op, root);
      if op.ReorderChildren? {
        FoundSiblingsDistinct(root, op.parentId);
        DistinctNeverOutweighs(op, root);
      }
    }
  }

  lemma {:induction false} UncheckedAllShrink(tables: FieldTables, ops: seq<TreeOp>, index: nat, root: Node)
    requires UniqueIds(root) && !AnyCanGrow(ops) && ReduceAll(tables, ops, index, root).Ok?
    ensures var r := ReduceAll(tables, ops, index, root).value; Count(r) <= Count(root) && Depth(r) <= Depth(root)
    decreases ops
  {
    if ops != [] {
      CannotGrowInsertsNothing(ops[0]);
      UncheckedShrinks(tables, ops[0], root);
      UncheckedUnique(tables, ops[0], root);
      UncheckedAllShrink(tables, ops[1..], index + 1, Reduce(tables, ops[0], root).value);
    }
  }

  /** An accepted op takes a tree of unique ids within the limits to one within the limits. */
  lemma ApplyKeepsLimits(tables: FieldTables, tree: Node, op: TreeOp)
    requires UniqueIds(tree) && WithinLimits(tree) && Apply(tables, tree, op).Ok?
    ensures WithinLimits(Apply(tables, tree, op).value)
  {
    AcceptedMeans(tables, tree, op);
    if !OpCanGrow(op) {
      UncheckedShrinks(tables, op, tree);
    }
  }

  /** Whatever a script does, every tree it reaches is in order. */
  lemma {:induction false} ScriptKeepsOrder(tables: FieldTables, tree: Node, ops: seq<TreeOp>)
    requires UniqueIds(tree) && WithinLimits(tree) && ApplyAll(tables, tree, ops).Ok?
    ensures UniqueIds(ApplyAll(tables, tree, ops).value) && WithinLimits(ApplyAll(tables, tree, ops).value)
    decreases ops
  {
    if ops != [] {
      ApplyKeepsIdsUnique(tables, tree, ops[0]);
      ApplyKeepsLimits(tables, tree, ops[0]);
      ScriptKeepsOrder(tables, Apply(tables, tree, ops[0]).value, ops[1..]);
    }
  }

  /** Where two siblings hold one id, restating the order copies the first over the second: an op that
      is never charged a walk then grows the tree. */
  lemma ReorderGrowsRepeatedSiblings(tables: FieldTables, q: Node, c: Node, d: Node)
    requires q.kind.Layout? && q.kind.children == [c, d] && c.id == d.id && Count(c) > Count(d)
    ensures var op := ReorderChildren(q.id, [c.id, c.id]);
      Apply(tables, q, op).Ok? && Count(Apply(tables, q, op).value) > Count(q) && !OpCanGrow(op)
  {
    var op := ReorderChildren(q.id, [c.id, c.id]);
    assert IdSeq([c, d]) == [c.id, c.id];
    FirstOfTwo(c, d);
    assert Reduce(tables, op, q) == Reorder(q, q.id, [c.id, c.id]);
    assert IdsAll([]) == multiset{};
    StepGrowth(tables, op, q);
  }

  lemma FirstOfTwo(c: Node, d: Node)
    requires c.id == d.id
    ensures CountAll(FirstHolders([c, d])) == Count(c) + Count(c) && CountAll([c, d]) == Count(c) + Count(d)
  {
    assert IdSeq([c, d]) == [c.id, c.id] && [c.id, c.id][1..] == [c.id] && [c.id][1..] == [];
    assert Pick([c, d], [c.id]) == [c] + Pick([c, d], []);
    assert [c, d][1..] == [d] && [c, c][1..] == [c] && [d][1..] == [] && [c][1..] == [];
    assert CountAll([d]) == Count(d) + CountAll([]) && CountAll([c]) == Count(c) + CountAll([]);
  }

  // ----- a move conserves -----

  lemma ParentInStep(ns: seq<Node>, t: Id)
    requires ns != []
    ensures FindLayoutParentIn(ns, t)
         == if FindLayoutParent(ns[0], t).Some? then FindLayoutParent(ns[0], t) else FindLayoutParentIn(ns[1..], t)
  {
  }

  lemma {:induction false} ParentInAt(ns: seq<Node>, t: Id) returns (j: nat)
    requires FindLayoutParentIn(ns, t).Some?
    ensures j < |ns| && FindLayoutParent(ns[j], t) == FindLayoutParentIn(ns, t)
  {
    ParentInStep(ns, t);
    if FindLayoutParent(ns[0], t).Some? {
      j := 0;
    } else {
      var later := ParentInAt(ns[1..], t);
      j := later + 1;
      SuffixAt(ns, 1, later);
    }
  }

  /** The parent found for a layout child is a node of the tree holding it. */
  lemma {:induction false} ParentHolds(n: Node, t: Id) returns (i: nat)
    requires UniqueIds(n) && FindLayoutParent(n, t).Some?
    ensures var q := FindLayoutParent(n, t).value;
      FindNode(n, q.id) == Some(q) && q.kind.Layout? && i < |q.kind.children| && q.kind.children[i].id == t
    decreases Count(n)
  {
    if n.kind.Layout? && t in IdSeq(n.kind.children) {
      i :| 0 <= i < |n.kind.children| && IdSeq(n.kind.children)[i] == t;
    } else {
      var cs := ChildNodes(n);
      var j := ParentInAt(cs, t);
      CountAllAt(cs, j);
      UniqueBelow(n);
      DistinctMember(cs, j);
      i := ParentHolds(cs[j], t);
      var q := FindLayoutParent(n, t).value;
      FindNodeSound(cs[j], q.id);
      LookupAt(cs, j, q.id, n);
      IdsAllMember(cs, j);
    }
  }

  /** Removing a layout child takes exactly its subtree's ids and nodes. */
  lemma RemoveTakes(root: Node, t: Id)
    requires UniqueIds(root) && Remove(root, t).Ok?
    ensures FindNode(root, t).Some?
    ensures var r, a := Remove(root, t).value, FindNode(root, t).value;
      UniqueIds(r) && Ids(r) + Ids(a) == Ids(root) && Count(r) + Count(a) == Count(root)
  {
    var i := ParentHolds(root, t);
    var q := FindLayoutParent(root, t).value;
    var a := q.kind.children[i];
    FoundSiblingsDistinct(root, q.id);
    WithoutOne(q.kind.children, i);
    FoundUnique(root, q.id);
    ReplaceChild(q, i, a);
    ChildPositions(q, i);
    FindThrough(root, q.id, t, a);
    var m := WithLayoutChildren(q, q.kind.children[..i] + q.kind.children[i + 1..]);
    DroppedMetrics(q, i);
    FindNodeSound(root, q.id);
    ReplaceBag(root, q.id, m);
    BagShrinks(Ids(root), Ids(q), Ids(m), Ids(a));
    RemoveTame(root, t, multiset{}) by { UniqueTame(root, multiset{}); }
    TameUnique(Remove(root, t).value, multiset{}, Ids(root));
  }

  lemma BagShrinks(whole: multiset<Id>, q: multiset<Id>, m: multiset<Id>, a: multiset<Id>)
    requires q <= whole && m + a == q
    ensures whole - q + m + a == whole
  {
  }

  lemma DroppedMetrics(q: Node, i: nat)
    requires q.kind.Layout? && i < |q.kind.children|
    ensures var m := WithLayoutChildren(q, q.kind.children[..i] + q.kind.children[i + 1..]);
      Ids(m) + Ids(q.kind.children[i]) == Ids(q) && Count(m) + Count(q.kind.children[i]) == Count(q)
  {
    var kids := q.kind.children;
    var ms := kids[..i] + kids[i + 1..];
    LayoutParts(q, kids);
    LayoutParts(q, ms);
    assert WithLayoutChildren(q, kids) == q;
    IdsAllSplit(kids, i);
    IdsAllConcat(kids[..i], kids[i + 1..]);
    DropCount(kids, i);
  }

  lemma InsertAdds(root: Node, p: Id, a: Node)
    requires Insert(root, p, a).Ok?
    ensures var r := Insert(root, p, a).value; Ids(r) == Ids(root) + Ids(a) && Count(r) == Count(root) + Count(a)
  {
    var q := FindNode(root, p).value;
    var m := WithLayoutChildren(q, q.kind.children + [a]);
    AppendedIds(q, q.kind.children, a);
    assert WithLayoutChildren(q, q.kind.children) == q;
    AppendedNodeCount(q, a);
    FindNodeSound(root, p);
    ReplaceBag(root, p, m);
  }

  lemma InsertSeats(root: Node, p: Id, a: Node)
    requires Insert(root, p, a).Ok? && UniqueIds(Insert(root, p, a).value)
    ensures var r := Insert(root, p, a).value;
      FindNode(r, a.id) == Some(a) && FindNode(r, p).Some? && FindNode(r, p).value.kind.Layout?
      && (var kids := FindNode(r, p).value.kind.children; kids != [] && kids[|kids| - 1] == a)
      && FindLayoutParent(r, a.id) == FindNode(r, p)
  {
    var q := FindNode(root, p).value;
    var m := WithLayoutChildren(q, q.kind.children + [a]);
    var r, last := Insert(root, p, a).value, |q.kind.children|;
    FindNodeSound(root, p);
    ReplaceReadBack(root, p, m);
    FoundUnique(r, p);
    assert m.kind.children[last] == a;
    ReplaceChild(m, last, a);
    ChildPositions(m, last);
    FindThrough(r, p, a.id, a);
    LayoutParentFound(r, p, last);
  }

  /** An accepted move keeps every id and node, carries the moved subtree unchanged, and leaves it the
      last child of its new parent. */
  lemma MoveConserves(tables: FieldTables, tree: Node, t: Id, p: Id)
    requires UniqueIds(tree) && Apply(tables, tree, MoveNode(t, p)).Ok?
    ensures var r := Apply(tables, tree, MoveNode(t, p)).value;
      Ids(r) == Ids(tree) && Count(r) == Count(tree)
      && FindNode(tree, t).Some? && FindNode(r, t) == FindNode(tree, t)
      && FindNode(r, p).Some? && FindNode(r, p).value.kind.Layout?
      && (var kids := FindNode(r, p).value.kind.children; kids != [] && kids[|kids| - 1] == FindNode(tree, t).value)
      && FindLayoutParent(r, t) == FindNode(r, p)
  {
    ApplyKeepsIdsUnique(tables, tree, MoveNode(t, p));
    MoveMeans(tables, tree, t, p);
    var removed, a := Remove(tree, t).value, FindNode(tree, t).value;
    FindNodeSound(tree, t);
    RemoveTakes(tree, t);
    InsertAdds(removed, p, a);
    InsertSeats(removed, p, a);
  }

  lemma MoveMeans(tables: FieldTables, tree: Node, t: Id, p: Id)
    requires Apply(tables, tree, MoveNode(t, p)).Ok?
    ensures FindNode(tree, t).Some? && Remove(tree, t).Ok?
    ensures Apply(tables, tree, MoveNode(t, p)) == Insert(Remove(tree, t).value, p, FindNode(tree, t).value)
  {
    AcceptedMeans(tables, tree, MoveNode(t, p));
    assert Reduce(tables, MoveNode(t, p), tree) == Move(tree, t, p);
  }

  lemma AppendedNodeCount(q: Node, a: Node)
    requires q.kind.Layout?
    ensures Count(WithLayoutChildren(q, q.kind.children + [a])) == Count(q) + Count(a)
  {
    var kids := q.kind.children;
    LayoutParts(q, kids);
    LayoutParts(q, kids + [a]);
    assert WithLayoutChildren(q, kids) == q;
    CountAllConcat(kids, [a]);
    assert [a][1..] == [];
    assert CountAll([a]) == Count(a) + CountAll([]);
  }
}
