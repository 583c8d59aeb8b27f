/** What a diff's script does: folding it over the first tree, exactly when that is the second. */
module DiffCorrect {
  import opened Trees
  import opened TreeOps
  import opened TreeFacts
  import opened TreeDiff
  import Ordinal

  // ----- what the script lands on -----

  /** The accessibility the script leaves: unmoved where the two traits are one trait. */
  function Landed(a: Node, b: Node): Option<Accessibility>
  {
    if OrDefault(a.accessibility) != OrDefault(b.accessibility)
    then Stored(OrDefault(b.accessibility)) else a.accessibility
  }

  function WithFacets(a: Node, b: Node): Node
  {
    a.(style := b.style, accessibility := Landed(a, b), tooltip := b.tooltip)
  }

  /** The node a matched pair's script leaves in `a`'s place. */
  function DiffResult(a: Node, b: Node): Node
    decreases Count(a), 1, 0
  {
    if a == b then b
    else if Faceted(a, b) == b then WithFacets(a, b)
    else if Recurses(a, b) then WithLayoutChildren(WithFacets(a, b), ChildResults(a, b, |a.kind.children|))
    else b
  }

  /** What the first `i` children become. */
  function ChildResults(a: Node, b: Node, i: nat): (r: seq<Node>)
    requires Recurses(a, b) && i <= |a.kind.children|
    ensures |r| == i
    decreases Count(a), 0, i
  {
    SameChildCount(a, b);
    if i == 0 then []
    else
      ChildIsSmaller(a, i - 1);
      ChildResults(a, b, i - 1) + [DiffResult(a.kind.children[i - 1], b.kind.children[i - 1])]
  }

  lemma SameChildCount(a: Node, b: Node)
    requires Recurses(a, b)
    ensures |a.kind.children| == |b.kind.children|
    ensures forall k :: 0 <= k < |a.kind.children| ==> a.kind.children[k].id == b.kind.children[k].id
  {
    assert |IdSeq(a.kind.children)| == |a.kind.children| && |IdSeq(b.kind.children)| == |b.kind.children|;
    forall k | 0 <= k < |a.kind.children| ensures a.kind.children[k].id == b.kind.children[k].id {
      assert IdSeq(a.kind.children)[k] == IdSeq(b.kind.children)[k];
    }
  }

  /** `a` with its facets and its first `i` children done. */
  function Mixed(a: Node, b: Node, i: nat): Node
    requires Recurses(a, b) && i <= |a.kind.children|
  {
    WithLayoutChildren(WithFacets(a, b), ChildResults(a, b, i) + a.kind.children[i..])
  }

  // ----- when it lands: a condition on the two trees alone -----

  /** The tree a replaced node leaves is within the limits, and repeats none of its ids. */
  ghost predicate SiteOk(result: Node, installed: Node)
  {
    WithinLimits(result) && !InstalledClash([installed], result)
  }

  /** Every whole-node replacement the pair needs, each against the half-done tree it happens in. */
  ghost predicate SitesOk(tree: Node, a: Node, b: Node)
    decreases Count(a)
  {
    if a == b || Faceted(a, b) == b then true
    else if Recurses(a, b) then
      SameChildCount(a, b);
      forall i | 0 <= i < |a.kind.children| ::
        ChildIsSmaller(a, i);
        SitesOk(Replace(tree, a.id, Mixed(a, b, i)), a.kind.children[i], b.kind.children[i])
    else SiteOk(Replace(tree, a.id, b), b)
  }

  /** An accessibility edit is representable: nothing to do, or a change to a record setting something
      or to the absent slot. */
  predicate AccessibilityOk(a: Node, b: Node)
  {
    a.accessibility == b.accessibility
    || (OrDefault(a.accessibility) != OrDefault(b.accessibility) && b.accessibility != Some(DEFAULT_ACCESSIBILITY))
  }

  /** `AccessibilityOk` at every pair whose facets are edited. */
  predicate TraitsOk(a: Node, b: Node)
    decreases Count(a)
  {
    if a == b then true
    else if Faceted(a, b) == b then AccessibilityOk(a, b)
    else if Recurses(a, b) then
      SameChildCount(a, b);
      AccessibilityOk(a, b)
      && forall i | 0 <= i < |a.kind.children| ::
        ChildIsSmaller(a, i);
        TraitsOk(a.kind.children[i], b.kind.children[i])
    else true
  }

  /** The condition under which the script is exact. */
  ghost predicate DiffApplies(before: Node, after: Node)
  {
    if before.id != after.id then SiteOk(after, after)
    else SitesOk(before, before, after) && TraitsOk(before, after)
  }

  // ----- facet edits -----

  lemma EditLands(tables: FieldTables, tree: Node, op: TreeOp, x: Node, x': Node)
    requires IsNodeEdit(op) && InsertedNodes(op) == [] && !op.UpdateProp?
    requires FindNode(tree, op.target) == Some(x) && Edited(tables, op, x) == Ok(x') && x'.id == op.target
    ensures Apply(tables, tree, op) == Ok(Replace(tree, op.target, x'))
    ensures FindNode(Replace(tree, op.target, x'), op.target) == Some(x')
  {
    ReplaceReadBack(tree, op.target, x');
    assert IdsAll([]) == multiset{};
  }

  lemma PatchReaches(before: Style, after: Style)
    ensures PatchedStyle(StyleMoves(before, after), before) == after
  {
  }

  lemma OneOp(tables: FieldTables, tree: Node, op: TreeOp)
    ensures ApplyAll(tables, tree, [op]) == Apply(tables, tree, op)
  {
    assert [op][1..] == [];
  }

  lemma StyleLands(tables: FieldTables, tree: Node, x: Node, after: Style)
    requires FindNode(tree, x.id) == Some(x)
    ensures ApplyAll(tables, tree, StyleEdit(x.id, x.style, after)) == Ok(Replace(tree, x.id, x.(style := after)))
  {
    var delta := StyleMoves(x.style, after);
    PatchReaches(x.style, after);
    if delta == NO_MOVES {
      ReplaceSame(tree, x.id);
      assert x.(style := after) == x;
    } else {
      var op := StyleEdit(x.id, x.style, after)[0];
      EditLands(tables, tree, op, x, x.(style := after));
      OneOp(tables, tree, op);
    }
  }

  lemma TraitsLand(tables: FieldTables, tree: Node, a: Node, b: Node)
    requires FindNode(tree, a.id) == Some(a) && a.id == b.id
    ensures ApplyAll(tables, tree, TraitEdits(a, b))
         == Ok(Replace(tree, a.id, a.(accessibility := Landed(a, b), tooltip := b.tooltip)))
  {
    var first := if OrDefault(a.accessibility) != OrDefault(b.accessibility)
      then [UpdateAccessibility(b.id, OrDefault(b.accessibility))] else [];
    var second := if a.tooltip != b.tooltip then [UpdateTooltip(b.id, b.tooltip)] else [];
    var a1 := a.(accessibility := Landed(a, b));
    var tree1 := Replace(tree, a.id, a1);
    var a2 := a1.(tooltip := b.tooltip);
    ReplaceReadBack(tree, a.id, a1);
    if first == [] {
      assert a1 == a;
      ReplaceSame(tree, a.id);
    } else {
      EditLands(tables, tree, first[0], a, a1);
      OneOp(tables, tree, first[0]);
    }
    assert ApplyAll(tables, tree, first) == Ok(tree1);
    if second == [] {
      assert a2 == a1;
      ReplaceSame(tree1, a.id);
    } else {
      EditLands(tables, tree1, second[0], a1, a2);
      OneOp(tables, tree1, second[0]);
    }
    assert ApplyAll(tables, tree1, second) == Ok(Replace(tree1, a.id, a2));
    ReplaceTwice(tree, a.id, a1, a2);
    ApplyAllConcat(tables, tree, first, second);
    assert TraitEdits(a, b) == first + second;
  }

  /** The facet edits bring exactly the node's style and traits over. */
  lemma FacetsLand(tables: FieldTables, tree: Node, a: Node, b: Node)
    requires FindNode(tree, a.id) == Some(a) && a.id == b.id
    ensures ApplyAll(tables, tree, FacetEdits(a, b)) == Ok(Replace(tree, a.id, WithFacets(a, b)))
  {
    var a1 := a.(style := b.style);
    StyleLands(tables, tree, a, b.style);
    ReplaceReadBack(tree, a.id, a1);
    TraitsLand(tables, Replace(tree, a.id, a1), a1, b);
    assert TraitEdits(a1, b) == TraitEdits(a, b);
    ReplaceTwice(tree, a.id, a1, WithFacets(a, b));
    ApplyAllConcat(tables, tree, StyleEdit(a.id, a.style, b.style), TraitEdits(a, b));
  }

  // ----- a whole-node replacement -----

  lemma IdSeqBag(ns: seq<Node>, i: nat, m: Node)
    requires i < |ns| && m.id == ns[i].id
    ensures multiset(IdSeq(ns[..i] + ns[i + 1..] + [m])) == multiset(IdSeq(ns))
  {
    var p, x, s := IdSeq(ns[..i]), ns[i].id, IdSeq(ns[i + 1..]);
    assert IdSeq(ns) == p + [x] + s;
    assert IdSeq(ns[..i] + ns[i + 1..] + [m]) == p + s + [x];
  }

  /** The child list after the old node is removed and the new one appended. */
  function Appended(kids: seq<Node>, i: nat, b: Node): seq<Node>
    requires i < |kids|
  {
    kids[..i] + kids[i + 1..] + [b]
  }

  /** Restating the order puts the appended node back in its seat. */
  lemma ReorderRestores(kids: seq<Node>, i: nat, b: Node)
    requires i < |kids| && b.id == kids[i].id
    requires forall j, k :: 0 <= j < k < |kids| ==> kids[j].id != kids[k].id
    ensures Ordinal.Sort(IdSeq(Appended(kids, i, b))) == Ordinal.Sort(IdSeq(kids))
    ensures Pick(Appended(kids, i, b), IdSeq(kids)) == kids[i := b]
  {
    IdSeqBag(kids, i, b);
    Ordinal.SortComparesBags(IdSeq(Appended(kids, i, b)), IdSeq(kids));
    var ns, ms := Appended(kids, i, b), kids[i := b];
    forall m | m in ms ensures FirstWithId(ns, m.id) == Some(m) {
      var k :| 0 <= k < |ms| && ms[k] == m;
      var at := if k < i then k else if k == i then |kids| - 1 else k - 1;
      assert ns[at] == m;
      FirstAt(ns, at);
    }
    assert IdSeq(ms) == IdSeq(kids);
    PickExact(ns, ms);
  }

  /** The facts of a seat: the parent's child at the position is the node, under the listed ids. */
  ghost predicate Seated(tree: Node, a: Node, seat: Seat)
  {
    match seat
    case Root => tree == a
    case At(p, i, siblings) =>
      var parent := FindNode(tree, p);
      parent.Some? && parent.value.kind.Layout? && i < |parent.value.kind.children|
      && parent.value.kind.children[i] == a && IdSeq(parent.value.kind.children) == siblings
  }

  /** Both arrangements of the children hold the same ids, nodes and depth. */
  lemma AppendedMetrics(kids: seq<Node>, i: nat, b: Node)
    requires i < |kids|
    ensures IdsAll(Appended(kids, i, b)) == IdsAll(kids[i := b])
    ensures CountAll(Appended(kids, i, b)) == CountAll(kids[i := b])
    ensures DepthAll(Appended(kids, i, b)) == DepthAll(kids[i := b])
  {
    var p, s := kids[..i], kids[i + 1..];
    assert kids[i := b] == p + ([b] + s);
    assert Appended(kids, i, b) == p + (s + [b]);
    IdsAllConcat(p, [b] + s); IdsAllConcat([b], s); IdsAllConcat(p, s + [b]); IdsAllConcat(s, [b]);
    CountAllConcat(p, [b] + s); CountAllConcat([b], s); CountAllConcat(p, s + [b]); CountAllConcat(s, [b]);
    DepthAllConcat(p, [b] + s); DepthAllConcat([b], s); DepthAllConcat(p, s + [b]); DepthAllConcat(s, [b]);
  }

  lemma SurfaceMetrics(n: Node, kids: seq<Node>, kids': seq<Node>)
    requires n.kind.Layout? && IdsAll(kids) == IdsAll(kids') && CountAll(kids) == CountAll(kids')
      && DepthAll(kids) == DepthAll(kids')
    ensures var m, m' := WithLayoutChildren(n, kids), WithLayoutChildren(n, kids');
      Ids(m) == Ids(m') && Count(m) == Count(m') && Depth(m) == Depth(m')
  {
    LayoutParts(n, kids);
    LayoutParts(n, kids');
  }

  lemma KidsDistinct(n: Node)
    requires UniqueIds(n) && n.kind.Layout?
    ensures Distinct(IdsAll(n.kind.children))
    ensures forall j, k :: 0 <= j < k < |n.kind.children| ==> n.kind.children[j].id != n.kind.children[k].id
  {
    var kids := n.kind.children;
    var rest := OptionSeq(n.state.onLoading) + OptionSeq(n.state.onEmpty);
    UniqueBelow(n);
    assert ChildNodes(n) == kids + rest;
    IdsAllConcat(kids, rest);
    DistinctParts(IdsAll(kids), IdsAll(rest));
    forall j, k | 0 <= j < k < |kids| ensures kids[j].id != kids[k].id {
      SiblingIdsDiffer(kids, j, k);
    }
  }

  /** The parent of a seated node, and what a write at the node is as a write at the parent. */
  lemma SeatFacts(tree: Node, a: Node, b: Node, seat: Seat)
    requires UniqueIds(tree) && seat.At? && Seated(tree, a, seat)
    ensures var q := FindNode(tree, seat.parentId).value;
      UniqueIds(q) && q.id == seat.parentId && tree.id != a.id
      && FindLayoutParent(tree, a.id) == Some(q)
      && Replace(tree, a.id, b)
          == Replace(tree, seat.parentId, WithLayoutChildren(q, q.kind.children[seat.position := b]))
      && FindNode(tree, a.id) == Some(a)
  {
    var p, i := seat.parentId, seat.position;
    var q := FindNode(tree, p).value;
    FindNodeSound(tree, p);
    FoundUnique(tree, p);
    ChildPositions(q, i);
    LayoutParentFound(tree, p, i);
    FoundBelow(tree, p, a.id);
    UniqueBelow(tree);
    ReplaceChild(q, i, b);
    FindThrough(tree, p, a.id, b);
  }

  lemma ApplyPlain(tables: FieldTables, tree: Node, op: TreeOp)
    requires !OpCanGrow(op) && InsertedNodes(op) == []
    ensures Apply(tables, tree, op) == Reduce(tables, op, tree)
  {
    assert IdsAll([]) == multiset{};
  }

  lemma RemoveReduces(tables: FieldTables, tree: Node, t: Id, q: Node, kids: seq<Node>)
    requires tree.id != t && FindLayoutParent(tree, t) == Some(q) && FindNode(tree, q.id) == Some(q)
    requires q.kind.Layout? && Without(q.kind.children, t) == kids
    ensures Apply(tables, tree, RemoveNode(t)) == Ok(Replace(tree, q.id, WithLayoutChildren(q, kids)))
  {
    ApplyPlain(tables, tree, RemoveNode(t));
    assert Reduce(tables, RemoveNode(t), tree) == Remove(tree, t);
  }

  lemma RemoveLands(tables: FieldTables, tree: Node, a: Node, seat: Seat)
    requires UniqueIds(tree) && seat.At? && Seated(tree, a, seat)
    ensures var q, i := FindNode(tree, seat.parentId).value, seat.position;
      Apply(tables, tree, RemoveNode(a.id))
      == Ok(Replace(tree, seat.parentId, WithLayoutChildren(q, q.kind.children[..i] + q.kind.children[i + 1..])))
  {
    var q, i := FindNode(tree, seat.parentId).value, seat.position;
    SeatFacts(tree, a, a, seat);
    KidsDistinct(q);
    WithoutOne(q.kind.children, i);
    RemoveReduces(tables, tree, a.id, q, q.kind.children[..i] + q.kind.children[i + 1..]);
  }

  lemma ClashReads(b: Node, r: Node)
    ensures InstalledClash([b], r) <==> exists x :: x in Ids(b) && Ids(r)[x] > 1
  {
    assert [b][1..] == [];
    assert IdsAll([b]) == Ids(b) + IdsAll([]);
  }

  lemma OverlapClashes(b: Node, r: Node, before: multiset<Id>)
    requires Ids(r) == before + Ids(b) && !(Ids(b) !! before)
    ensures InstalledClash([b], r)
  {
    ClashReads(b, r);
    var x :| x in Ids(b) && x in before;
    assert Ids(r)[x] == before[x] + Ids(b)[x];
  }

  lemma InsertAddsIds(tree: Node, p: Id, b: Node)
    requires FindNode(tree, p).Some? && FindNode(tree, p).value.kind.Layout?
    ensures var q := FindNode(tree, p).value;
      Ids(Replace(tree, p, WithLayoutChildren(q, q.kind.children + [b]))) == Ids(tree) + Ids(b)
  {
    var q := FindNode(tree, p).value;
    var q' := WithLayoutChildren(q, q.kind.children + [b]);
    FindNodeSound(tree, p);
    ReplaceBag(tree, p, q');
    AppendedIds(q, q.kind.children, b);
    assert WithLayoutChildren(q, q.kind.children) == q;
  }

  /** Inserting under a found layout parent is accepted exactly when its result is in order. */
  lemma InsertExact(tables: FieldTables, tree: Node, p: Id, b: Node)
    requires FindNode(tree, p).Some? && FindNode(tree, p).value.kind.Layout?
    ensures var q := FindNode(tree, p).value;
      var r, run := Replace(tree, p, WithLayoutChildren(q, q.kind.children + [b])),
        Apply(tables, tree, InsertChild(p, b));
      if SiteOk(r, b) then run == Ok(r) else run.Err?
  {
    var q := FindNode(tree, p).value;
    var r := Replace(tree, p, WithLayoutChildren(q, q.kind.children + [b]));
    InsertAddsIds(tree, p, b);
    var op := InsertChild(p, b);
    assert OpCanGrow(op) && InsertedNodes(op) == [b];
    assert Reduce(tables, op, tree) == Insert(tree, p, b);
    if !(Ids(b) !! Ids(tree)) {
      OverlapClashes(b, r, Ids(tree));
    } else {
      assert Insert(tree, p, b) == Ok(r);
    }
  }

  /** The mixed tree has the ids, nodes and depth of the one with the appended child. */
  lemma AppendedTreeMetrics(tree: Node, p: Id, i: nat, b: Node)
    requires FindNode(tree, p).Some? && FindNode(tree, p).value.kind.Layout?
      && i < |FindNode(tree, p).value.kind.children|
    ensures var q := FindNode(tree, p).value;
      var r, s := Replace(tree, p, WithLayoutChildren(q, q.kind.children[i := b])),
        Replace(tree, p, WithLayoutChildren(q, Appended(q.kind.children, i, b)));
      Ids(r) == Ids(s) && (SiteOk(r, b) <==> SiteOk(s, b))
  {
    var q := FindNode(tree, p).value;
    var m, m' := WithLayoutChildren(q, q.kind.children[i := b]), WithLayoutChildren(q, Appended(q.kind.children, i, b));
    AppendedMetrics(q.kind.children, i, b);
    SurfaceMetrics(q, q.kind.children[i := b], Appended(q.kind.children, i, b));
    SameReplaced(tree, p, m, m');
  }

  /** Replacements of one size, depth and ids make trees of one size, depth and ids. */
  lemma SameReplaced(tree: Node, p: Id, m: Node, m': Node)
    requires FindNode(tree, p).Some? && Ids(m) == Ids(m') && Count(m) == Count(m') && Depth(m) == Depth(m')
    ensures var r, s := Replace(tree, p, m), Replace(tree, p, m');
      Ids(r) == Ids(s) && Count(r) == Count(s) && Depth(r) == Depth(s)
  {
    ReplaceBag(tree, p, m);
    ReplaceBag(tree, p, m');
    ReplaceSameDepth(tree, p, m, m');
  }

  lemma ReorderReduces(tables: FieldTables, tree: Node, q: Node, order: seq<Id>, kids: seq<Node>)
    requires FindNode(tree, q.id) == Some(q) && q.kind.Layout?
    requires Ordinal.Sort(IdSeq(q.kind.children)) == Ordinal.Sort(order) && Pick(q.kind.children, order) == kids
    ensures Apply(tables, tree, ReorderChildren(q.id, order)) == Ok(Replace(tree, q.id, WithLayoutChildren(q, kids)))
  {
    ApplyPlain(tables, tree, ReorderChildren(q.id, order));
    assert Reduce(tables, ReorderChildren(q.id, order), tree) == Reorder(tree, q.id, order);
  }

  lemma OrderRestored(tables: FieldTables, tree: Node, q: Node, i: nat, b: Node)
    requires FindNode(tree, q.id) == Some(q) && q.kind.Layout? && i < |q.kind.children| && b.id == q.kind.children[i].id
    requires forall j, k :: 0 <= j < k < |q.kind.children| ==> q.kind.children[j].id != q.kind.children[k].id
    ensures var kids := q.kind.children;
      ApplyAll(tables, Replace(tree, q.id, WithLayoutChildren(q, Appended(kids, i, b))),
               if i + 1 != |kids| then [ReorderChildren(q.id, IdSeq(kids))] else [])
      == Ok(Replace(tree, q.id, WithLayoutChildren(q, kids[i := b])))
  {
    var kids := q.kind.children;
    var q2, q3 := WithLayoutChildren(q, Appended(kids, i, b)), WithLayoutChildren(q, kids[i := b]);
    var t2 := Replace(tree, q.id, q2);
    if i + 1 == |kids| {
      assert Appended(kids, i, b) == kids[i := b];
    } else {
      ReorderRestores(kids, i, b);
      ReplaceReadBack(tree, q.id, q2);
      ReplaceTwice(tree, q.id, q2, q3);
      ReorderReduces(tables, t2, q2, IdSeq(kids), kids[i := b]);
      OneOp(tables, t2, ReorderChildren(q.id, IdSeq(kids)));
    }
  }

  lemma TwoOpsThen(tables: FieldTables, tree: Node, first: TreeOp, second: TreeOp, rest: seq<TreeOp>)
    ensures ApplyAll(tables, tree, [first, second] + rest) ==
      (var t1 := Apply(tables, tree, first);
       if t1.Err? then t1 else
       var t2 := Apply(tables, t1.value, second);
       if t2.Err? then t2 else ApplyAll(tables, t2.value, rest))
  {
    var ops := [first, second] + rest;
    assert ops[1..] == [second] + rest && ops[1..][1..] == rest;
  }

  /** A replacement script runs exactly when its result is in order, and then writes the node. */
  lemma ReplacementRuns(tables: FieldTables, tree: Node, a: Node, b: Node, seat: Seat)
    requires UniqueIds(tree) && a.id == b.id && Seated(tree, a, seat)
    ensures var r, run := Replace(tree, a.id, b), ApplyAll(tables, tree, Replacement(a, b, seat));
      if SiteOk(r, b) then run == Ok(r) else run.Err?
  {
    match seat
    case Root =>
      OneOp(tables, tree, ReplaceRoot(b));
      assert Reduce(tables, ReplaceRoot(b), tree) == Ok(b) && InsertedNodes(ReplaceRoot(b)) == [b]
        && OpCanGrow(ReplaceRoot(b));
    case At(p, i, siblings) =>
      var q := FindNode(tree, p).value;
      SeatFacts(tree, a, b, seat);
      KidsDistinct(q);
      RemoveLands(tables, tree, a, seat);
      SeatedReplacement(tables, tree, q, i, b);
      assert |IdSeq(q.kind.children)| == |q.kind.children|;
  }

  lemma SeatedReplacement(tables: FieldTables, tree: Node, q: Node, i: nat, b: Node)
    requires FindNode(tree, q.id) == Some(q) && q.kind.Layout? && i < |q.kind.children| && b.id == q.kind.children[i].id
    requires forall j, k :: 0 <= j < k < |q.kind.children| ==> q.kind.children[j].id != q.kind.children[k].id
    requires Apply(tables, tree, RemoveNode(b.id))
          == Ok(Replace(tree, q.id, WithLayoutChildren(q, q.kind.children[..i] + q.kind.children[i + 1..])))
    ensures var kids := q.kind.children;
      var r := Replace(tree, q.id, WithLayoutChildren(q, kids[i := b]));
      var run := ApplyAll(tables, tree, [RemoveNode(b.id), InsertChild(q.id, b)]
        + (if i + 1 != |kids| then [ReorderChildren(q.id, IdSeq(kids))] else []));
      if SiteOk(r, b) then run == Ok(r) else run.Err?
  {
    var kids := q.kind.children;
    var q1, q2 := WithLayoutChildren(q, kids[..i] + kids[i + 1..]), WithLayoutChildren(q, Appended(kids, i, b));
    var t1 := Replace(tree, q.id, q1);
    var reorder := if i + 1 != |kids| then [ReorderChildren(q.id, IdSeq(kids))] else [];
    ReplaceReadBack(tree, q.id, q1);
    ReplaceTwice(tree, q.id, q1, q2);
    InsertExact(tables, t1, q.id, b);
    assert WithLayoutChildren(q1, q1.kind.children + [b]) == q2;
    AppendedTreeMetrics(tree, q.id, i, b);
    TwoOpsThen(tables, tree, RemoveNode(b.id), InsertChild(q.id, b), reorder);
    OrderRestored(tables, tree, q, i, b);
  }

  // ----- the whole script -----

  /** The node left in place has the target's id and exactly its ids, nodes and depth. */
  lemma {:induction false} ResultShape(a: Node, b: Node)
    requires a.id == b.id
    ensures var r := DiffResult(a, b); r.id == b.id && Ids(r) == Ids(b) && Count(r) == Count(b) && Depth(r) == Depth(b)
    decreases Count(a), 1, 0
  {
    if a == b {
    } else if Faceted(a, b) == b {
      assert ChildNodes(WithFacets(a, b)) == ChildNodes(b);
    } else if Recurses(a, b) {
      var n := |a.kind.children|;
      SameChildCount(a, b);
      ResultsShape(a, b, n);
      assert b.kind.children[..n] == b.kind.children;
      assert Stripped(Faceted(a, b)) == Stripped(b);
      assert ChildNodes(WithLayoutChildren(WithFacets(a, b), b.kind.children)) == ChildNodes(b);
      SurfaceMetrics(WithFacets(a, b), ChildResults(a, b, n), b.kind.children);
    }
  }

  ghost predicate SameMetrics(ns: seq<Node>, ms: seq<Node>)
  {
    IdSeq(ns) == IdSeq(ms) && IdsAll(ns) == IdsAll(ms) && CountAll(ns) == CountAll(ms) && DepthAll(ns) == DepthAll(ms)
  }

  lemma SnocMetrics(ns: seq<Node>, ms: seq<Node>, x: Node, y: Node)
    requires SameMetrics(ns, ms)
    requires x.id == y.id && Ids(x) == Ids(y) && Count(x) == Count(y) && Depth(x) == Depth(y)
    ensures SameMetrics(ns + [x], ms + [y])
  {
    OneMore(ns, x);
    OneMore(ms, y);
  }

  lemma OneMore(ns: seq<Node>, x: Node)
    ensures IdSeq(ns + [x]) == IdSeq(ns) + [x.id]
    ensures IdsAll(ns + [x]) == IdsAll(ns) + Ids(x) && CountAll(ns + [x]) == CountAll(ns) + Count(x)
    ensures DepthAll(ns + [x]) == Max(DepthAll(ns), Depth(x))
  {
    assert [x][1..] == [];
    assert IdsAll([x]) == Ids(x) + IdsAll([]) && IdsAll([]) == multiset{};
    assert DepthAll([x]) == Max(Depth(x), DepthAll([]));
    IdsAllConcat(ns, [x]);
    CountAllConcat(ns, [x]);
    DepthAllConcat(ns, [x]);
  }

  lemma {:induction false} ResultsShape(a: Node, b: Node, i: nat)
    requires a.id == b.id && Recurses(a, b) && i <= |a.kind.children| == |b.kind.children|
    ensures SameMetrics(ChildResults(a, b, i), b.kind.children[..i])
    decreases Count(a), 0, i
  {
    if i > 0 {
      var ca, cb := a.kind.children[i - 1], b.kind.children[i - 1];
      SameChildCount(a, b);
      ResultsShape(a, b, i - 1);
      ChildIsSmaller(a, i - 1);
      ResultShape(ca, cb);
      SnocMetrics(ChildResults(a, b, i - 1), b.kind.children[..i - 1], DiffResult(ca, cb), cb);
      assert b.kind.children[..i] == b.kind.children[..i - 1] + [cb];
    }
  }

  /** The tree with `a`'s facets and its first `i` children done. */
  function Stage(tree: Node, a: Node, b: Node, i: nat): Node
    requires Recurses(a, b) && i <= |a.kind.children|
  {
    Replace(tree, a.id, Mixed(a, b, i))
  }

  lemma {:induction false} ChildResultsPrefix(a: Node, b: Node, i: nat, j: nat)
    requires Recurses(a, b) && j <= i <= |a.kind.children|
    ensures ChildResults(a, b, i)[..j] == ChildResults(a, b, j)
  {
    if j < i {
      ChildResultsPrefix(a, b, i - 1, j);
      assert ChildResults(a, b, i)[..j] == ChildResults(a, b, i - 1)[..j];
    }
  }

  lemma StageRead(tree: Node, a: Node, b: Node, i: nat)
    requires FindNode(tree, a.id) == Some(a) && Recurses(a, b) && i < |a.kind.children|
    requires UniqueIds(Stage(tree, a, b, i))
    ensures var s, m := Stage(tree, a, b, i), Mixed(a, b, i);
      FindNode(s, a.id) == Some(m) && UniqueIds(m) && m.kind.children[i] == a.kind.children[i]
      && a.kind.children[i].id in Ids(m)
  {
    var s, m := Stage(tree, a, b, i), Mixed(a, b, i);
    ReplaceReadBack(tree, a.id, m);
    FoundUnique(s, a.id);
    ChildPositions(m, i);
  }

  lemma MixedSiblings(a: Node, b: Node, i: nat)
    requires a.id == b.id && Recurses(a, b) && i <= |a.kind.children|
    ensures IdSeq(Mixed(a, b, i).kind.children) == IdSeq(b.kind.children)
  {
    SameChildCount(a, b);
    ResultsShape(a, b, i);
    var xs, ys := Mixed(a, b, i).kind.children, b.kind.children;
    forall k | 0 <= k < |ys| ensures xs[k].id == ys[k].id {
      if k < i {
        assert IdSeq(ChildResults(a, b, i))[k] == IdSeq(ys[..i])[k];
      }
    }
  }

  lemma WriteThrough(tree: Node, t: Id, m: Node, m': Node, x: Id, r: Node)
    requires FindNode(tree, t).Some? && m.id == t && UniqueIds(Replace(tree, t, m))
    requires x in Ids(m) && Replace(m, x, r) == m'
    ensures FindNode(Replace(tree, t, m), x) == FindNode(m, x)
    ensures Replace(Replace(tree, t, m), x, r) == Replace(tree, t, m')
  {
    ReplaceReadBack(tree, t, m);
    FindThrough(Replace(tree, t, m), t, x, r);
    ReplaceTwice(tree, t, m, m');
  }

  lemma NextInPlace(done: seq<Node>, kids: seq<Node>, i: nat, r: Node)
    requires |done| == i < |kids|
    ensures (done + kids[i..])[i] == kids[i]
    ensures (done + kids[i..])[i := r] == (done + [r]) + kids[i + 1..]
  {
  }

  lemma MixedNext(a: Node, b: Node, i: nat)
    requires Recurses(a, b) && i < |a.kind.children| == |b.kind.children|
    ensures var m, r := Mixed(a, b, i), DiffResult(a.kind.children[i], b.kind.children[i]);
      m.kind.children[i] == a.kind.children[i]
      && Mixed(a, b, i + 1) == WithLayoutChildren(m, m.kind.children[i := r])
  {
    var r := DiffResult(a.kind.children[i], b.kind.children[i]);
    NextInPlace(ChildResults(a, b, i), a.kind.children, i, r);
    assert ChildResults(a, b, i + 1) == ChildResults(a, b, i) + [r];
  }

  lemma MixedStep(a: Node, b: Node, i: nat)
    requires Recurses(a, b) && i < |a.kind.children| == |b.kind.children|
    requires UniqueIds(Mixed(a, b, i))
    ensures var m, ca, cb := Mixed(a, b, i), a.kind.children[i], b.kind.children[i];
      FindNode(m, ca.id) == Some(ca) && Replace(m, ca.id, DiffResult(ca, cb)) == Mixed(a, b, i + 1)
  {
    MixedNext(a, b, i);
    ReplaceChild(Mixed(a, b, i), i, DiffResult(a.kind.children[i], b.kind.children[i]));
  }

  /** Writing child `i`'s result takes stage `i` to stage `i + 1`. */
  lemma StageStep(tree: Node, a: Node, b: Node, i: nat)
    requires a.id == b.id && FindNode(tree, a.id) == Some(a)
    requires Recurses(a, b) && i < |a.kind.children| == |b.kind.children|
    requires UniqueIds(Stage(tree, a, b, i))
    ensures var s, ca, cb := Stage(tree, a, b, i), a.kind.children[i], b.kind.children[i];
      FindNode(s, ca.id) == Some(ca) && ca.id == cb.id
      && Seated(s, ca, At(a.id, i, IdSeq(b.kind.children)))
      && Replace(s, ca.id, DiffResult(ca, cb)) == Stage(tree, a, b, i + 1)
  {
    var ca, cb := a.kind.children[i], b.kind.children[i];
    SameChildCount(a, b);
    StageRead(tree, a, b, i);
    MixedStep(a, b, i);
    WriteThrough(tree, a.id, Mixed(a, b, i), Mixed(a, b, i + 1), ca.id, DiffResult(ca, cb));
    MixedSiblings(a, b, i);
  }

  lemma ReplacedUnique(tree: Node, a: Node, b: Node)
    requires UniqueIds(tree) && FindNode(tree, a.id) == Some(a) && SiteOk(Replace(tree, a.id, b), b)
    ensures UniqueIds(Replace(tree, a.id, b))
  {
    var r := Replace(tree, a.id, b);
    ReplaceBag(tree, a.id, b);
    ClashReads(b, r);
    forall x | x in Ids(r) ensures Ids(r)[x] == 1 {
      if x !in Ids(b) {
        assert x in Ids(tree) && Ids(r)[x] <= Ids(tree)[x];
      } else {
        assert !(Ids(r)[x] > 1);
      }
    }
  }

  lemma SameIdsUnique(tree: Node, a: Node, m: Node)
    requires UniqueIds(tree) && FindNode(tree, a.id) == Some(a) && Ids(m) == Ids(a)
    ensures UniqueIds(Replace(tree, a.id, m))
  {
    FindNodeSound(tree, a.id);
    ReplaceBag(tree, a.id, m);
    assert Ids(Replace(tree, a.id, m)) == Ids(tree);
  }

  ghost predicate ChildSiteOk(tree: Node, a: Node, b: Node, i: nat)
    requires Recurses(a, b) && i < |a.kind.children| == |b.kind.children|
  {
    SitesOk(Stage(tree, a, b, i), a.kind.children[i], b.kind.children[i])
  }

  lemma SitesUnfold(tree: Node, a: Node, b: Node)
    requires a != b && Faceted(a, b) != b && Recurses(a, b) && |a.kind.children| == |b.kind.children|
    ensures SitesOk(tree, a, b) <==> forall k :: 0 <= k < |a.kind.children| ==> ChildSiteOk(tree, a, b, k)
  {
    var n := |a.kind.children|;
    if SitesOk(tree, a, b) {
      forall k | 0 <= k < n ensures ChildSiteOk(tree, a, b, k) {
        ChildIsSmaller(a, k);
      }
    } else {
      var k :| 0 <= k < n && !SitesOk(Replace(tree, a.id, Mixed(a, b, k)), a.kind.children[k], b.kind.children[k]);
      assert !ChildSiteOk(tree, a, b, k);
    }
  }

  lemma FacetsUnique(tree: Node, a: Node, b: Node)
    requires UniqueIds(tree) && FindNode(tree, a.id) == Some(a)
    ensures UniqueIds(Replace(tree, a.id, WithFacets(a, b)))
  {
    assert ChildNodes(WithFacets(a, b)) == ChildNodes(a);
    SameIdsUnique(tree, a, WithFacets(a, b));
  }

  lemma StageEnds(tree: Node, a: Node, b: Node)
    requires a != b && Faceted(a, b) != b && Recurses(a, b)
    ensures Stage(tree, a, b, 0) == Replace(tree, a.id, WithFacets(a, b))
    ensures Stage(tree, a, b, |a.kind.children|) == Replace(tree, a.id, DiffResult(a, b))
  {
    var n := |a.kind.children|;
    assert a.kind.children[0..] == a.kind.children;
    assert Mixed(a, b, 0) == WithFacets(a, b);
    assert Mixed(a, b, n).kind.children == ChildResults(a, b, n);
    assert Mixed(a, b, n) == DiffResult(a, b);
  }

  /** A pair's script, run where the node is seated, does exactly what `DiffResult` says when every
      replacement it needs is in order, and is refused when one is not. */
  lemma {:induction false} DiffRuns(tables: FieldTables, tree: Node, a: Node, b: Node, seat: Seat)
    requires UniqueIds(tree) && a.id == b.id && FindNode(tree, a.id) == Some(a) && Seated(tree, a, seat)
    ensures var run, r := ApplyAll(tables, tree, DiffNode(a, b, seat)), Replace(tree, a.id, DiffResult(a, b));
      if SitesOk(tree, a, b) then run == Ok(r) && UniqueIds(r) else run.Err?
    decreases Count(a), 2, 0
  {
    if a == b {
      ReplaceSame(tree, a.id);
    } else if Faceted(a, b) == b {
      FacetsLand(tables, tree, a, b);
      FacetsUnique(tree, a, b);
    } else if Recurses(a, b) {
      RecursionRuns(tables, tree, a, b, seat);
    } else {
      ReplacementRuns(tables, tree, a, b, seat);
      if SiteOk(Replace(tree, a.id, b), b) {
        ReplacedUnique(tree, a, b);
      }
    }
  }

  lemma RecursionScript(a: Node, b: Node, seat: Seat)
    requires a != b && Faceted(a, b) != b && Recurses(a, b)
    ensures DiffNode(a, b, seat) == FacetEdits(a, b) + DiffChildren(a, b, 0)
  {
  }

  lemma {:induction false} RecursionRuns(tables: FieldTables, tree: Node, a: Node, b: Node, seat: Seat)
    requires UniqueIds(tree) && a.id == b.id && FindNode(tree, a.id) == Some(a) && Seated(tree, a, seat)
    requires a != b && Faceted(a, b) != b && Recurses(a, b)
    ensures var run, r := ApplyAll(tables, tree, DiffNode(a, b, seat)), Replace(tree, a.id, DiffResult(a, b));
      if SitesOk(tree, a, b) then run == Ok(r) && UniqueIds(r) else run.Err?
    decreases Count(a), 1, 0
  {
    SameChildCount(a, b);
    FacetsLand(tables, tree, a, b);
    FacetsUnique(tree, a, b);
    StageEnds(tree, a, b);
    ChildrenRun(tables, tree, a, b, 0);
    SitesUnfold(tree, a, b);
    RecursionScript(a, b, seat);
    ApplyAllConcat(tables, tree, FacetEdits(a, b), DiffChildren(a, b, 0));
  }

  lemma {:induction false} ChildrenRun(tables: FieldTables, tree: Node, a: Node, b: Node, i: nat)
    requires a.id == b.id && FindNode(tree, a.id) == Some(a)
    requires Recurses(a, b) && i <= |a.kind.children| == |b.kind.children|
    requires UniqueIds(Stage(tree, a, b, i))
    ensures var n := |a.kind.children|;
      var run := ApplyAll(tables, Stage(tree, a, b, i), DiffChildren(a, b, i));
      if forall k :: i <= k < n ==> ChildSiteOk(tree, a, b, k)
      then run == Ok(Stage(tree, a, b, n)) && UniqueIds(Stage(tree, a, b, n)) else run.Err?
    decreases Count(a), 0, |a.kind.children| - i
  {
    var n := |a.kind.children|;
    if i < n {
      var s, ca, cb := Stage(tree, a, b, i), a.kind.children[i], b.kind.children[i];
      var seat := At(a.id, i, IdSeq(b.kind.children));
      ChildIsSmaller(a, i);
      StageStep(tree, a, b, i);
      DiffRuns(tables, s, ca, cb, seat);
      ApplyAllConcat(tables, s, DiffNode(ca, cb, seat), DiffChildren(a, b, i + 1));
      if ChildSiteOk(tree, a, b, i) {
        ChildrenRun(tables, tree, a, b, i + 1);
      }
    }
  }

  // ----- exactly when the result is the target -----

  /** The node left in place is the target exactly when every accessibility edit is representable. */
  lemma {:induction false} ResultExact(a: Node, b: Node)
    requires a.id == b.id
    ensures DiffResult(a, b) == b <==> TraitsOk(a, b)
    decreases Count(a)
  {
    if a != b && Faceted(a, b) == b {
      assert WithFacets(a, b) == b.(accessibility := Landed(a, b));
    } else if a != b && Recurses(a, b) {
      var n := |a.kind.children|;
      SameChildCount(a, b);
      var r := DiffResult(a, b);
      assert r.kind.children == ChildResults(a, b, n);
      assert Stripped(r) == Stripped(b).(accessibility := Landed(a, b)) by {
        assert Stripped(Faceted(a, b)) == Stripped(b);
      }
      forall k | 0 <= k < n
        ensures ChildResults(a, b, n)[k] == b.kind.children[k] <==> TraitsOk(a.kind.children[k], b.kind.children[k])
      {
        ChildIsSmaller(a, k);
        ChildResultsPrefix(a, b, n, k + 1);
        assert ChildResults(a, b, n)[k] == ChildResults(a, b, k + 1)[k];
        ResultExact(a.kind.children[k], b.kind.children[k]);
      }
      assert r == WithLayoutChildren(Stripped(r), r.kind.children);
      assert b == WithLayoutChildren(Stripped(b), b.kind.children);
    }
  }

  /** The diff is exact on precisely the pairs its condition admits. */
  lemma DiffExact(tables: FieldTables, before: Node, after: Node)
    requires UniqueIds(before)
    ensures ApplyAll(tables, before, DiffOf(before, after)) == Ok(after) <==> DiffApplies(before, after)
  {
    if before.id != after.id {
      OneOp(tables, before, ReplaceRoot(after));
      assert Reduce(tables, ReplaceRoot(after), before) == Ok(after)
        && InsertedNodes(ReplaceRoot(after)) == [after] && OpCanGrow(ReplaceRoot(after));
    } else {
      DiffRuns(tables, before, before, after, Root);
      ResultExact(before, after);
    }
  }
}
