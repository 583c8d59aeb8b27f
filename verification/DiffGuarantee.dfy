/** The guarantee the diff's documentation states, on the pairs where it holds, and where it fails. */
module DiffGuarantee {
  import opened Trees
  import opened TreeOps
  import opened TreeFacts
  import opened TreeDiff
  import opened DiffCorrect

  /** The ids from `n` down to the first holder of `x`. */
  function PathTo(n: Node, x: Id): Option<seq<Id>>
    decreases Count(n), 0
  {
    if n.id == x then Some([x])
    else
      var below := PathIn(ChildNodes(n), x);
      if below.None? then None else Some([n.id] + below.value)
  }

  function PathIn(ns: seq<Node>, x: Id): Option<seq<Id>>
    decreases CountAll(ns), 1
  {
    if ns == [] then None
    else
      var first := PathTo(ns[0], x);
      if first.Some? then first else PathIn(ns[1..], x)
  }

  /** Every id both trees hold has the same ancestors in both. */
  ghost predicate SamePaths(a: Node, b: Node)
  {
    forall x :: x in Ids(a) && x in Ids(b) ==> PathTo(a, x) == PathTo(b, x)
  }

  /** No node carries an accessibility record that sets nothing. */
  predicate NoEmptyAccessibility(n: Node)
    decreases Count(n)
  {
    n.accessibility != Some(DEFAULT_ACCESSIBILITY)
    && forall i | 0 <= i < |ChildNodes(n)| :: CountAllAt(ChildNodes(n), i); NoEmptyAccessibility(ChildNodes(n)[i])
  }

  // ----- paths under unique ids -----

  lemma {:induction false} PathExists(n: Node, x: Id)
    ensures PathTo(n, x).Some? <==> x in Ids(n)
    ensures PathTo(n, x).Some? ==> PathTo(n, x).value != [] && PathTo(n, x).value[0] == n.id
    decreases Count(n), 0
  {
    if n.id != x { PathInExists(ChildNodes(n), x); }
  }

  lemma {:induction false} PathInExists(ns: seq<Node>, x: Id)
    ensures PathIn(ns, x).Some? <==> x in IdsAll(ns)
    decreases CountAll(ns), 1
  {
    if ns != [] {
      PathExists(ns[0], x);
      PathInExists(ns[1..], x);
    }
  }

  lemma {:induction false} PathInAt(ns: seq<Node>, i: nat, x: Id)
    requires i < |ns| && PathTo(ns[i], x).Some? && forall k :: 0 <= k < i ==> PathTo(ns[k], x).None?
    ensures PathIn(ns, x) == PathTo(ns[i], x)
  {
    if i > 0 {
      assert PathTo(ns[0], x).None?;
      forall k | 0 <= k < i - 1 ensures PathTo(ns[1..][k], x).None? {
        assert ns[1..][k] == ns[k + 1];
      }
      PathInAt(ns[1..], i - 1, x);
    }
  }

  /** The path to an id under a layout child goes through that child. */
  lemma PathThroughChild(n: Node, i: nat, x: Id)
    requires UniqueIds(n) && n.kind.Layout? && i < |n.kind.children| && x in Ids(n.kind.children[i])
    ensures PathTo(n.kind.children[i], x).Some?
    ensures PathTo(n, x) == Some([n.id] + PathTo(n.kind.children[i], x).value)
    ensures PathTo(n, x).value[1] == n.kind.children[i].id
  {
    var cs := ChildNodes(n);
    UniqueBelow(n);
    ChildPositions(n, i);
    PathExists(cs[i], x);
    forall k | 0 <= k < i ensures PathTo(cs[k], x).None? {
      PositionsDisjoint(cs, k, i);
      NotInBoth(Ids(cs[k]), Ids(cs[i]), x);
      PathExists(cs[k], x);
    }
    PathInAt(cs, i, x);
  }

  /** With ids on the same paths, an id under one matched child is under no other in the other tree. */
  lemma MatchedChildApart(a: Node, b: Node, i: nat, j: nat, x: Id)
    requires a.id == b.id && UniqueIds(a) && UniqueIds(b) && SamePaths(a, b) && Recurses(a, b)
    requires i < |a.kind.children| == |b.kind.children| && j < |b.kind.children|
    requires x in Ids(a.kind.children[i]) && x in Ids(b.kind.children[j])
    ensures i == j
  {
    SameChildCount(a, b);
    PathThroughChild(a, i, x);
    PathThroughChild(b, j, x);
    ChildPositions(a, i);
    ChildPositions(b, j);
    if i != j {
      KidsDistinct(a);
    }
  }

  lemma MatchedChildPaths(a: Node, b: Node, i: nat)
    requires a.id == b.id && UniqueIds(a) && UniqueIds(b) && SamePaths(a, b) && Recurses(a, b)
    requires i < |a.kind.children| == |b.kind.children|
    ensures SamePaths(a.kind.children[i], b.kind.children[i])
  {
    var ca, cb := a.kind.children[i], b.kind.children[i];
    ChildPositions(a, i);
    ChildPositions(b, i);
    forall x | x in Ids(ca) && x in Ids(cb) ensures PathTo(ca, x) == PathTo(cb, x) {
      PathThroughChild(a, i, x);
      PathThroughChild(b, i, x);
      assert PathTo(ca, x).value == PathTo(a, x).value[1..];
      assert PathTo(cb, x).value == PathTo(b, x).value[1..];
    }
  }

  // ----- the half-done trees stay in order -----

  /** The rest of the tree holds none of `b`'s ids. */
  ghost predicate Apart(tree: Node, a: Node, b: Node)
  {
    forall x :: x in Ids(b) ==> Ids(tree)[x] == Ids(a)[x]
  }

  /** Anything no deeper than `d` fits in the target's place. */
  ghost predicate DepthRoom(tree: Node, target: Id, d: nat)
  {
    forall m :: Depth(m) <= d ==> Depth(Replace(tree, target, m)) <= MAX_NODE_DEPTH
  }

  function Surfaces(n: Node): seq<Node>
  {
    OptionSeq(n.state.onLoading) + OptionSeq(n.state.onEmpty)
  }

  lemma LayoutMetrics(n: Node)
    requires n.kind.Layout?
    ensures Ids(n) == multiset{n.id} + (IdsAll(n.kind.children) + IdsAll(Surfaces(n)))
    ensures Count(n) == 1 + CountAll(n.kind.children) + CountAll(Surfaces(n))
    ensures Depth(n) == 1 + Max(DepthAll(n.kind.children), DepthAll(Surfaces(n)))
  {
    LayoutParts(n, n.kind.children);
    assert WithLayoutChildren(n, n.kind.children) == n;
  }

  lemma MatchedState(a: Node, b: Node)
    requires Recurses(a, b)
    ensures a.state == b.state
  {
    assert Stripped(Faceted(a, b)).state == Stripped(b).state;
  }

  /** The ids of a half-done node, child `i` named. */
  lemma MixedIds(a: Node, b: Node, i: nat, x: Id)
    requires a.id == b.id && Recurses(a, b) && i < |a.kind.children| == |b.kind.children|
    ensures Ids(Mixed(a, b, i))[x] == multiset{b.id}[x] + IdsAll(b.kind.children[..i])[x] + Ids(a.kind.children[i])[x]
                                   + IdsAll(a.kind.children[i + 1..])[x] + IdsAll(Surfaces(b))[x]
    ensures Ids(b)[x] == multiset{b.id}[x] + IdsAll(b.kind.children[..i])[x] + Ids(b.kind.children[i])[x]
                       + IdsAll(b.kind.children[i + 1..])[x] + IdsAll(Surfaces(b))[x]
  {
    var m := Mixed(a, b, i);
    MatchedState(a, b);
    LayoutMetrics(m);
    LayoutMetrics(b);
    ResultsShape(a, b, i);
    IdsAllConcat(ChildResults(a, b, i), a.kind.children[i..]);
    IdsAllSplit(b.kind.children, i);
    assert a.kind.children[i..][1..] == a.kind.children[i + 1..];
  }

  lemma StageApart(tree: Node, a: Node, b: Node, i: nat)
    requires a.id == b.id && FindNode(tree, a.id) == Some(a) && UniqueIds(a) && UniqueIds(b)
    requires Recurses(a, b) && i < |a.kind.children| == |b.kind.children|
    requires SamePaths(a, b) && Apart(tree, a, b)
    ensures Apart(Stage(tree, a, b, i), a.kind.children[i], b.kind.children[i])
  {
    forall x | x in Ids(b.kind.children[i])
      ensures Ids(Stage(tree, a, b, i))[x] == Ids(a.kind.children[i])[x]
    {
      StageApartAt(tree, a, b, i, x);
    }
  }

  lemma StageApartAt(tree: Node, a: Node, b: Node, i: nat, x: Id)
    requires a.id == b.id && FindNode(tree, a.id) == Some(a) && UniqueIds(a) && UniqueIds(b)
    requires Recurses(a, b) && i < |a.kind.children| == |b.kind.children|
    requires SamePaths(a, b) && Apart(tree, a, b) && x in Ids(b.kind.children[i])
    ensures Ids(Stage(tree, a, b, i))[x] == Ids(a.kind.children[i])[x]
  {
    ReplaceBag(tree, a.id, Mixed(a, b, i));
    FindNodeSound(tree, a.id);
    MixedIdsBelow(a, b, i, x);
    assert Ids(tree)[x] == Ids(a)[x];
  }

  /** An id of child `i` of the target occurs in the half-done node only in its own child `i`. */
  lemma MixedIdsBelow(a: Node, b: Node, i: nat, x: Id)
    requires a.id == b.id && UniqueIds(a) && UniqueIds(b) && SamePaths(a, b)
    requires Recurses(a, b) && i < |a.kind.children| == |b.kind.children| && x in Ids(b.kind.children[i])
    ensures x in Ids(b) && Ids(Mixed(a, b, i))[x] == Ids(a.kind.children[i])[x]
  {
    ChildPositions(b, i);
    assert x in Ids(b) && Ids(b)[x] == 1;
    MixedIds(a, b, i, x);
    NotLater(a, b, i, x);
  }

  lemma NotLater(a: Node, b: Node, i: nat, x: Id)
    requires a.id == b.id && UniqueIds(a) && UniqueIds(b) && SamePaths(a, b)
    requires Recurses(a, b) && i < |a.kind.children| == |b.kind.children| && x in Ids(b.kind.children[i])
    ensures x !in IdsAll(a.kind.children[i + 1..])
  {
    if x in IdsAll(a.kind.children[i + 1..]) {
      var k := OwnerFrom(a.kind.children, i + 1, x);
      MatchedChildApart(a, b, k, i, x);
    }
  }

  lemma MixedCount(a: Node, b: Node, i: nat)
    requires a.id == b.id && Recurses(a, b) && i < |a.kind.children| == |b.kind.children|
    ensures Count(Mixed(a, b, i))
      == 1 + CountAll(b.kind.children[..i]) + CountAll(a.kind.children[i..]) + CountAll(Surfaces(a))
  {
    LayoutMetrics(Mixed(a, b, i));
    ResultsShape(a, b, i);
    CountAllConcat(ChildResults(a, b, i), a.kind.children[i..]);
  }

  lemma CountFrom(n: Node, i: nat)
    requires n.kind.Layout? && i < |n.kind.children|
    ensures var k := n.kind.children;
      Count(n) == 1 + CountAll(k[..i]) + CountAll(k[i..]) + CountAll(Surfaces(n))
      && CountAll(k[i..]) == Count(k[i]) + CountAll(k[i + 1..])
  {
    LayoutMetrics(n);
    CountTail(n.kind.children, i);
  }

  lemma CountTail(ns: seq<Node>, i: nat)
    requires i < |ns|
    ensures CountAll(ns) == CountAll(ns[..i]) + CountAll(ns[i..])
    ensures CountAll(ns[i..]) == Count(ns[i]) + CountAll(ns[i + 1..])
  {
    assert ns == ns[..i] + ns[i..];
    CountAllConcat(ns[..i], ns[i..]);
    assert ns[i..][1..] == ns[i + 1..];
  }

  lemma StageCount(tree: Node, a: Node, b: Node, i: nat)
    requires a.id == b.id && FindNode(tree, a.id) == Some(a)
    requires Recurses(a, b) && i < |a.kind.children| == |b.kind.children|
    ensures Count(Stage(tree, a, b, i)) + Count(b.kind.children[i]) <= Count(tree) + Count(b)
  {
    var m := Mixed(a, b, i);
    ReplaceBag(tree, a.id, m);
    var cm, ca, cb := Count(m), Count(a), Count(b);
    assert cm + Count(b.kind.children[i]) <= ca + cb by {
      MixedCount(a, b, i);
      CountFrom(a, i);
      CountFrom(b, i);
    }
  }

  lemma ExchangedDepth(a: Node, b: Node, i: nat, c: Node)
    requires a.id == b.id && Recurses(a, b) && i < |a.kind.children| == |b.kind.children|
    ensures DepthAll(Mixed(a, b, i).kind.children[i := c])
         == Max(DepthAll(b.kind.children[..i]), Max(Depth(c), DepthAll(a.kind.children[i + 1..])))
  {
    var ak, rs := a.kind.children, ChildResults(a, b, i);
    ResultsShape(a, b, i);
    NextInPlace(rs, ak, i, c);
    assert rs + [c] + ak[i + 1..] == rs + ([c] + ak[i + 1..]);
    DepthAllConcat(rs, [c] + ak[i + 1..]);
    DepthAllConcat([c], ak[i + 1..]);
    assert [c][1..] == [];
    assert DepthAll([c]) == Max(Depth(c), DepthAll([]));
  }

  lemma DepthFrom(n: Node, i: nat)
    requires n.kind.Layout? && i < |n.kind.children|
    ensures var k := n.kind.children;
      DepthAll(k[..i]) < Depth(n) && Depth(k[i]) < Depth(n) && DepthAll(k[i + 1..]) < Depth(n)
      && DepthAll(Surfaces(n)) < Depth(n)
  {
    LayoutMetrics(n);
    DepthAllSplit(n.kind.children, i);
  }

  lemma ExchangedBound(a: Node, b: Node, i: nat, c: Node, d: nat)
    requires a.id == b.id && Recurses(a, b) && i < |a.kind.children| == |b.kind.children|
    requires DepthAll(b.kind.children[..i]) < d && Depth(c) < d && DepthAll(a.kind.children[i + 1..]) < d
    ensures DepthAll(Mixed(a, b, i).kind.children[i := c]) < d
  {
    ExchangedDepth(a, b, i, c);
  }

  lemma RebuiltDepth(n: Node, kids: seq<Node>, d: nat)
    requires n.kind.Layout? && DepthAll(kids) < d && DepthAll(Surfaces(n)) < d
    ensures Depth(WithLayoutChildren(n, kids)) <= d
  {
    LayoutMetrics(WithLayoutChildren(n, kids));
  }

  lemma MixedSurfaces(a: Node, b: Node, i: nat)
    requires Recurses(a, b) && i <= |a.kind.children|
    ensures Mixed(a, b, i).kind.Layout? && Surfaces(Mixed(a, b, i)) == Surfaces(a)
  {
  }

  /** A half-done node with one child exchanged is no deeper than the deeper of its two versions. */
  lemma MixedDepth(a: Node, b: Node, i: nat, c: Node)
    requires a.id == b.id && Recurses(a, b) && i < |a.kind.children| == |b.kind.children|
    requires Depth(c) <= Max(Depth(a.kind.children[i]), Depth(b.kind.children[i]))
    ensures var m := Mixed(a, b, i);
      Depth(WithLayoutChildren(m, m.kind.children[i := c])) <= Max(Depth(a), Depth(b))
  {
    var m, d := Mixed(a, b, i), Max(Depth(a), Depth(b));
    DepthFrom(a, i);
    DepthFrom(b, i);
    ExchangedBound(a, b, i, c, d);
    MixedSurfaces(a, b, i);
    RebuiltDepth(m, m.kind.children[i := c], d);
  }

  lemma StageDepth(tree: Node, a: Node, b: Node, i: nat)
    requires a.id == b.id && FindNode(tree, a.id) == Some(a)
    requires Recurses(a, b) && i < |a.kind.children| == |b.kind.children|
    requires UniqueIds(Stage(tree, a, b, i))
    requires DepthRoom(tree, a.id, Max(Depth(a), Depth(b)))
    ensures DepthRoom(Stage(tree, a, b, i), a.kind.children[i].id,
      Max(Depth(a.kind.children[i]), Depth(b.kind.children[i])))
  {
    var s, ca, cb := Stage(tree, a, b, i), a.kind.children[i], b.kind.children[i];
    forall c | Depth(c) <= Max(Depth(ca), Depth(cb)) ensures Depth(Replace(s, ca.id, c)) <= MAX_NODE_DEPTH {
      var m := Mixed(a, b, i);
      StageRead(tree, a, b, i);
      ReplaceChild(m, i, c);
      WriteThrough(tree, a.id, m, WithLayoutChildren(m, m.kind.children[i := c]), ca.id, c);
      MixedDepth(a, b, i, c);
    }
  }

  lemma {:induction false} RoomForSites(tables: FieldTables, tree: Node, a: Node, b: Node, seat: Seat)
    requires a.id == b.id && UniqueIds(tree) && FindNode(tree, a.id) == Some(a) && UniqueIds(b)
    requires SamePaths(a, b) && Apart(tree, a, b)
    requires Count(tree) + Count(b) <= MAX_NODES && DepthRoom(tree, a.id, Max(Depth(a), Depth(b)))
    ensures SitesOk(tree, a, b)
    decreases Count(a), 1, 0
  {
    if a == b || Faceted(a, b) == b {
    } else if Recurses(a, b) {
      SameChildCount(a, b);
      FacetsUnique(tree, a, b);
      StageEnds(tree, a, b);
      RoomForChildren(tables, tree, a, b, 0);
      SitesUnfold(tree, a, b);
    } else {
      var r := Replace(tree, a.id, b);
      FindNodeSound(tree, a.id);
      ReplaceBag(tree, a.id, b);
      ClashReads(b, r);
    }
  }

  lemma {:induction false} RoomForChildren(tables: FieldTables, tree: Node, a: Node, b: Node, i: nat)
    requires a.id == b.id && UniqueIds(tree) && FindNode(tree, a.id) == Some(a) && UniqueIds(b)
    requires SamePaths(a, b) && Apart(tree, a, b)
    requires Count(tree) + Count(b) <= MAX_NODES && DepthRoom(tree, a.id, Max(Depth(a), Depth(b)))
    requires Recurses(a, b) && i <= |a.kind.children| == |b.kind.children|
    requires UniqueIds(Stage(tree, a, b, i))
    ensures forall k :: i <= k < |a.kind.children| ==> ChildSiteOk(tree, a, b, k)
    decreases Count(a), 0, |a.kind.children| - i
  {
    if i < |a.kind.children| {
      var s, ca, cb := Stage(tree, a, b, i), a.kind.children[i], b.kind.children[i];
      ChildIsSmaller(a, i);
      FoundUnique(tree, a.id);
      StageStep(tree, a, b, i);
      MatchedChildPaths(a, b, i);
      StageApart(tree, a, b, i);
      StageCount(tree, a, b, i);
      StageDepth(tree, a, b, i);
      UniqueBelow(b);
      ChildPositions(b, i);
      DistinctMember(ChildNodes(b), i);
      RoomForSites(tables, s, ca, cb, At(a.id, i, IdSeq(b.kind.children)));
      DiffRuns(tables, s, ca, cb, At(a.id, i, IdSeq(b.kind.children)));
      RoomForChildren(tables, tree, a, b, i + 1);
    }
  }

  lemma {:induction false} PlainTraits(a: Node, b: Node)
    requires NoEmptyAccessibility(a) && NoEmptyAccessibility(b)
    ensures TraitsOk(a, b)
    decreases Count(a)
  {
    if a != b && Faceted(a, b) != b && Recurses(a, b) {
      SameChildCount(a, b);
      forall i | 0 <= i < |a.kind.children| ensures TraitsOk(a.kind.children[i], b.kind.children[i]) {
        ChildPositions(a, i);
        ChildPositions(b, i);
        PlainTraits(ChildNodes(a)[i], ChildNodes(b)[i]);
      }
    }
  }

  /** The documented guarantee: folding the script over the first tree gives the second, for trees of
      unique ids whose shared ids keep their ancestors, with no empty accessibility record and room
      for the half-done trees. */
  lemma DiffRebuildsTarget(tables: FieldTables, before: Node, after: Node)
    requires UniqueIds(before) && UniqueIds(after) && SamePaths(before, after)
    requires NoEmptyAccessibility(before) && NoEmptyAccessibility(after)
    requires Count(before) + Count(after) <= MAX_NODES
    requires Depth(before) <= MAX_NODE_DEPTH && Depth(after) <= MAX_NODE_DEPTH
    ensures ApplyAll(tables, before, DiffOf(before, after)) == Ok(after)
  {
    if before.id != after.id {
      ClashReads(after, after);
    } else {
      assert DepthRoom(before, before.id, Max(Depth(before), Depth(after)));
      RoomForSites(tables, before, before, after, Root);
      PlainTraits(before, after);
    }
    DiffExact(tables, before, after);
  }

  // ----- where the guarantee fails -----

  function Plain(id: Id, kind: Kind): Node
  {
    Node(id, kind, DEFAULT_STATE, DEFAULT_STYLE, None, None, None, None)
  }

  function Box(id: Id, children: seq<Node>): Node
  {
    Plain(id, Layout("Box", "", children))
  }

  /** `r` holding `x` and `z`, with `y` under one of them, under the other, or under both. */
  function MovedBefore(r: Id, x: Id, y: Id, z: Id): Node { Box(r, [Box(x, []), Box(z, [Box(y, [])])]) }

  function MovedAfter(r: Id, x: Id, y: Id, z: Id): Node { Box(r, [Box(x, [Box(y, [])]), Box(z, [])]) }

  function HalfMoved(r: Id, x: Id, y: Id, z: Id): Node { Box(r, [Box(x, [Box(y, [])]), Box(z, [Box(y, [])])]) }

  lemma BoxIds(id: Id, children: seq<Node>)
    ensures Ids(Box(id, children)) == multiset{id} + IdsAll(children)
  {
    assert ChildNodes(Box(id, children)) == children;
  }

  lemma NestedIds(x: Id, y: Id)
    ensures Ids(Box(x, [])) == multiset{x} && Ids(Box(x, [Box(y, [])])) == multiset{x, y}
  {
    BoxIds(x, []);
    BoxIds(y, []);
    BoxIds(x, [Box(y, [])]);
    assert [Box(y, [])][1..] == [];
    assert IdsAll([Box(y, [])]) == Ids(Box(y, [])) + IdsAll([]);
  }

  lemma PairIds(r: Id, a: Node, b: Node)
    ensures Ids(Box(r, [a, b])) == multiset{r} + Ids(a) + Ids(b)
  {
    BoxIds(r, [a, b]);
    assert [a, b][1..] == [b] && [b][1..] == [];
    assert IdsAll([b]) == Ids(b) + IdsAll([]);
  }

  predicate FourIds(r: Id, x: Id, y: Id, z: Id)
  {
    r != x && r != y && r != z && x != y && x != z && y != z
  }

  lemma MovedIds(r: Id, x: Id, y: Id, z: Id)
    requires FourIds(r, x, y, z)
    ensures UniqueIds(MovedBefore(r, x, y, z)) && UniqueIds(MovedAfter(r, x, y, z))
    ensures Ids(HalfMoved(r, x, y, z))[y] == 2
  {
    NestedIds(x, y);
    NestedIds(z, y);
    PairIds(r, Box(x, []), Box(z, [Box(y, [])]));
    PairIds(r, Box(x, [Box(y, [])]), Box(z, []));
    PairIds(r, Box(x, [Box(y, [])]), Box(z, [Box(y, [])]));
    SumsDistinct(r, x, y, z);
  }

  lemma SumsDistinct(r: Id, x: Id, y: Id, z: Id)
    requires FourIds(r, x, y, z)
    ensures Distinct(multiset{r} + multiset{x} + multiset{z, y})
    ensures Distinct(multiset{r} + multiset{x, y} + multiset{z})
    ensures (multiset{r} + multiset{x, y} + multiset{z, y})[y] == 2
  {
  }

  lemma MovedRecurses(r: Id, x: Id, y: Id, z: Id)
    ensures var a, b := MovedBefore(r, x, y, z), MovedAfter(r, x, y, z);
      a != b && Recurses(a, b) && Faceted(a, b) != b && Stage(a, a, b, 0) == a
  {
    var a, b := MovedBefore(r, x, y, z), MovedAfter(r, x, y, z);
    assert IdSeq(a.kind.children) == [x, z] && IdSeq(b.kind.children) == [x, z];
    assert Stripped(Faceted(a, b)) == Stripped(b);
    assert a.kind.children[0].kind.children == [] && b.kind.children[0].kind.children != [];
    assert Faceted(a, b).kind.children[0] != b.kind.children[0];
    assert a.kind.children[0..] == a.kind.children;
    assert Mixed(a, b, 0) == a;
  }

  lemma NestNotMatched(x: Id, y: Id)
    ensures var old', new' := Box(x, []), Box(x, [Box(y, [])]);
      old' != new' && Faceted(old', new') != new' && !Recurses(old', new')
  {
    var old', new' := Box(x, []), Box(x, [Box(y, [])]);
    assert old'.kind.children == [] && new'.kind.children != [];
    assert |IdSeq(old'.kind.children)| == 0 && |IdSeq(new'.kind.children)| == 1;
  }

  lemma MovedSite(r: Id, x: Id, y: Id, z: Id)
    requires FourIds(r, x, y, z) && UniqueIds(MovedBefore(r, x, y, z)) && Ids(HalfMoved(r, x, y, z))[y] == 2
    ensures !SitesOk(MovedBefore(r, x, y, z), Box(x, []), Box(x, [Box(y, [])]))
  {
    var a, new' := MovedBefore(r, x, y, z), Box(x, [Box(y, [])]);
    NestNotMatched(x, y);
    NestedIds(x, y);
    ReplaceChild(a, 0, new');
    assert a.kind.children[0 := new'] == HalfMoved(r, x, y, z).kind.children;
    assert Replace(a, x, new') == HalfMoved(r, x, y, z);
    ClashReads(new', HalfMoved(r, x, y, z));
  }

  /** An id that moves to an earlier sibling's subtree is inserted while its old holder still stands,
      and the script is refused, although both trees are in order. */
  lemma MovedIdRefused(tables: FieldTables, r: Id, x: Id, y: Id, z: Id)
    requires FourIds(r, x, y, z)
    ensures var a, b := MovedBefore(r, x, y, z), MovedAfter(r, x, y, z);
      UniqueIds(a) && UniqueIds(b) && ApplyAll(tables, a, DiffOf(a, b)).Err?
  {
    var a, b := MovedBefore(r, x, y, z), MovedAfter(r, x, y, z);
    MovedIds(r, x, y, z);
    MovedRecurses(r, x, y, z);
    MovedSite(r, x, y, z);
    assert !ChildSiteOk(a, a, b, 0);
    SitesUnfold(a, a, b);
    DiffRuns(tables, a, a, b, Root);
  }

  /** A target whose accessibility record sets nothing is not reached: the edit is taken for no edit. */
  lemma EmptyAccessibilityMissed(tables: FieldTables, n: Node)
    requires UniqueIds(n) && n.accessibility == None
    ensures var target := n.(accessibility := Some(DEFAULT_ACCESSIBILITY));
      ApplyAll(tables, n, DiffOf(n, target)) == Ok(n) && n != target
  {
    var target := n.(accessibility := Some(DEFAULT_ACCESSIBILITY));
    assert Faceted(n, target) == target;
    assert FacetEdits(n, target) == [];
  }
}
