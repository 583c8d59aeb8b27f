/** The id-addressed rose tree every operation works on, and the walkers over it. */
module Trees {

  datatype Option<+T> = None | Some(value: T)

  type Id = string

  /** Each sub-field is its wire spelling; the all-empty record stands for the defaults. */
  datatype Style = Style(direction: string, emphasis: string, role: string,
                         tone: string, voice: string, weight: string)

  const DEFAULT_STYLE := Style("", "", "", "", "", "")

  /** The members an accessibility record sets; the empty record is the default. */
  datatype Accessibility = Accessibility(members: map<string, string>)

  const DEFAULT_ACCESSIBILITY := Accessibility(map[])

  /** The `state` block: two alternative surfaces, and whether an error callback is present. */
  datatype State = State(onLoading: Option<Node>, onEmpty: Option<Node>, onError: bool)

  const DEFAULT_STATE := State(None, None, false)

  /** A kind is child-bearing layout, a structural kind holding fixed sub-trees, or a leaf.
      `tag` is the kind's discriminator and `own` its fields other than its sub-nodes. */
  datatype Kind =
    | Layout(tag: string, own: string, children: seq<Node>)
    | Structural(tag: string, own: string, parts: seq<Node>)
    | Leaf(tag: string, own: string)

  datatype Node = Node(id: Id, kind: Kind, state: State, style: Style,
                       accessibility: Option<Accessibility>, tooltip: Option<string>,
                       visible: Option<string>, fallback: Option<Node>)

  // ----- sub-nodes -----

  function OptionSeq<T>(o: Option<T>): seq<T>
  {
    if o.Some? then [o.value] else []
  }

  function KindChildren(kind: Kind): seq<Node>
  {
    match kind
    case Layout(_, _, children) => children
    case Structural(_, _, parts) => parts
    case Leaf(_, _) => []
  }

  function Count(n: Node): (c: nat)
    ensures c >= 1
    decreases n
  {
    1 + (match n.kind
         case Layout(_, _, children) => CountAll(children)
         case Structural(_, _, parts) => CountAll(parts)
         case Leaf(_, _) => 0)
    + (if n.state.onLoading.Some? then Count(n.state.onLoading.value) else 0)
    + (if n.state.onEmpty.Some? then Count(n.state.onEmpty.value) else 0)
  }

  function CountAll(ns: seq<Node>): nat
    decreases ns
  {
    if ns == [] then 0 else Count(ns[0]) + CountAll(ns[1..])
  }

  /** Every immediate sub-node: the kind's sub-trees first, then the `state` surfaces. */
  function ChildNodes(n: Node): (cs: seq<Node>)
    ensures Count(n) == 1 + CountAll(cs)
  {
    var kids, loading, empty := KindChildren(n.kind), OptionSeq(n.state.onLoading), OptionSeq(n.state.onEmpty);
    CountAllConcat(kids, loading);
    CountAllConcat(kids + loading, empty);
    kids + loading + empty
  }

  lemma {:induction false} CountAllConcat(a: seq<Node>, b: seq<Node>)
    ensures CountAll(a + b) == CountAll(a) + CountAll(b)
  {
    if a == [] {
      assert a + b == b;
    } else {
      assert (a + b)[0] == a[0] && (a + b)[1..] == a[1..] + b;
      CountAllConcat(a[1..], b);
    }
  }

  lemma {:induction false} CountAllAt(ns: seq<Node>, i: nat)
    requires i < |ns|
    ensures Count(ns[i]) <= CountAll(ns)
  {
    if i > 0 { CountAllAt(ns[1..], i - 1); }
  }

  /** `kind` holding the sub-nodes `kids` in place of its own. */
  function WithKindChildren(kind: Kind, kids: seq<Node>): Kind
    requires |kids| == |KindChildren(kind)|
  {
    match kind
    case Layout(tag, own, _) => Layout(tag, own, kids)
    case Structural(tag, own, _) => Structural(tag, own, kids)
    case Leaf(_, _) => kind
  }

  /** `n` holding `cs` in place of its immediate sub-nodes, position by position. */
  function WithChildNodes(n: Node, cs: seq<Node>): (r: Node)
    requires |cs| == |ChildNodes(n)|
    ensures r.id == n.id
    ensures ChildNodes(r) == cs
  {
    var k := |KindChildren(n.kind)|;
    var l := |OptionSeq(n.state.onLoading)|;
    n.(kind := WithKindChildren(n.kind, cs[..k]),
       state := n.state.(onLoading := if l == 1 then Some(cs[k]) else None,
                         onEmpty := if n.state.onEmpty.Some? then Some(cs[k + l]) else None))
  }

  lemma WithOwnChildNodes(n: Node)
    ensures WithChildNodes(n, ChildNodes(n)) == n
  {
    assert ChildNodes(n)[..|KindChildren(n.kind)|] == KindChildren(n.kind);
  }

  // ----- metrics -----

  function Max(a: nat, b: nat): nat { if a >= b then a else b }

  function Depth(n: Node): (d: nat)
    ensures d >= 1
    decreases Count(n), 0
  {
    1 + DepthAll(ChildNodes(n))
  }

  function DepthAll(ns: seq<Node>): nat
    decreases CountAll(ns), 1
  {
    if ns == [] then 0 else Max(Depth(ns[0]), DepthAll(ns[1..]))
  }

  /** One walk yielding both figures the wire limits bound. */
  method TreeMetrics(n: Node) returns (depth: nat, count: nat)
    ensures depth == Depth(n) && count == Count(n)
    decreases Count(n)
  {
    depth, count := 1, 1;
    var cs := ChildNodes(n);
    for i := 0 to |cs|
      invariant count == 1 + CountAll(cs[..i])
      invariant depth == 1 + DepthAll(cs[..i])
    {
      assert cs[..i + 1] == cs[..i] + [cs[i]];
      CountAllAt(cs, i);
      var d, c := TreeMetrics(cs[i]);
      CountAllConcat(cs[..i], [cs[i]]);
      DepthAllConcat(cs[..i], [cs[i]]);
      count := count + c;
      if d + 1 > depth {
        depth := d + 1;
      }
    }
    assert cs[..|cs|] == cs;
  }

  lemma {:induction false} DepthAllConcat(a: seq<Node>, b: seq<Node>)
    ensures DepthAll(a + b) == Max(DepthAll(a), DepthAll(b))
  {
    if a == [] {
      assert a + b == b;
    } else {
      assert (a + b)[0] == a[0] && (a + b)[1..] == a[1..] + b;
      DepthAllConcat(a[1..], b);
    }
  }

  // ----- ids -----

  /** The ids of a subtree, each with its multiplicity. */
  function Ids(n: Node): multiset<Id>
    decreases Count(n), 0
  {
    multiset{n.id} + IdsAll(ChildNodes(n))
  }

  function IdsAll(ns: seq<Node>): multiset<Id>
    decreases CountAll(ns), 1
  {
    if ns == [] then multiset{} else Ids(ns[0]) + IdsAll(ns[1..])
  }

  ghost predicate UniqueIds(n: Node)
  {
    Distinct(Ids(n))
  }

  ghost predicate Distinct(ids: multiset<Id>)
  {
    forall x :: x in ids ==> ids[x] == 1
  }

  lemma DistinctParts(a: multiset<Id>, b: multiset<Id>)
    requires Distinct(a + b)
    ensures Distinct(a) && Distinct(b) && a !! b
  {
    forall x | x in a + b ensures a[x] + b[x] == 1 {
      assert (a + b)[x] == 1;
    }
    assert forall x :: x in a ==> x in a + b;
    assert forall x :: x in b ==> x in a + b;
  }

  lemma DistinctSum(a: multiset<Id>, b: multiset<Id>)
    requires Distinct(a) && Distinct(b) && a !! b
    ensures Distinct(a + b)
  {
    forall x | x in a + b ensures (a + b)[x] == 1 {
      assert !(x in a && x in b);
    }
  }

  lemma BagSwapLeft(h: multiset<Id>, r: multiset<Id>, a: multiset<Id>, m: multiset<Id>)
    requires a <= h
    ensures (h - a + m) + r == (h + r) - a + m
  {
  }

  lemma BagSwapRight(h: multiset<Id>, r: multiset<Id>, a: multiset<Id>, m: multiset<Id>)
    requires a <= r
    ensures h + (r - a + m) == (h + r) - a + m
  {
  }

  lemma {:induction false} IdsAllConcat(a: seq<Node>, b: seq<Node>)
    ensures IdsAll(a + b) == IdsAll(a) + IdsAll(b)
  {
    if a == [] {
      assert a + b == b;
    } else {
      assert (a + b)[0] == a[0] && (a + b)[1..] == a[1..] + b;
      IdsAllConcat(a[1..], b);
    }
  }

  // ----- lookup by id -----

  /** The first node, in depth-first order, holding the id. */
  function FindNode(n: Node, target: Id): Option<Node>
    decreases Count(n), 0
  {
    if n.id == target then Some(n) else FindIn(ChildNodes(n), target)
  }

  function FindIn(ns: seq<Node>, target: Id): Option<Node>
    decreases CountAll(ns), 1
  {
    if ns == [] then None
    else
      var first := FindNode(ns[0], target);
      if first.Some? then first else FindIn(ns[1..], target)
  }

  /** `n` with the node `FindNode` answers replaced by `m`: a write through the found node. */
  function Replace(n: Node, target: Id, m: Node): Node
    decreases Count(n), 0
  {
    if n.id == target then m else WithChildNodes(n, ReplaceIn(ChildNodes(n), target, m))
  }

  function ReplaceIn(ns: seq<Node>, target: Id, m: Node): (r: seq<Node>)
    ensures |r| == |ns|
    decreases CountAll(ns), 1
  {
    if ns == [] then []
    else if FindNode(ns[0], target).Some? then [Replace(ns[0], target, m)] + ns[1..]
    else [ns[0]] + ReplaceIn(ns[1..], target, m)
  }

  lemma {:induction false} FindNodeSound(n: Node, t: Id)
    ensures FindNode(n, t).Some? <==> t in Ids(n)
    ensures FindNode(n, t).Some? ==>
      FindNode(n, t).value.id == t && Ids(FindNode(n, t).value) <= Ids(n) && Count(FindNode(n, t).value) <= Count(n)
    decreases Count(n), 0
  {
    if n.id != t { FindInSound(ChildNodes(n), t); }
  }

  lemma {:induction false} FindInSound(ns: seq<Node>, t: Id)
    ensures FindIn(ns, t).Some? <==> t in IdsAll(ns)
    ensures FindIn(ns, t).Some? ==>
      FindIn(ns, t).value.id == t && Ids(FindIn(ns, t).value) <= IdsAll(ns)
          && Count(FindIn(ns, t).value) <= CountAll(ns)
    decreases CountAll(ns), 1
  {
    if ns != [] {
      FindNodeSound(ns[0], t);
      FindInSound(ns[1..], t);
    }
  }

  /** A write through a found node exchanges exactly its subtree's ids and nodes. */
  lemma {:induction false} ReplaceBag(n: Node, t: Id, m: Node)
    requires FindNode(n, t).Some?
    ensures var a := FindNode(n, t).value;
      Ids(Replace(n, t, m)) == Ids(n) - Ids(a) + Ids(m) && Count(Replace(n, t, m)) == Count(n) - Count(a) + Count(m)
    decreases Count(n), 0
  {
    FindNodeSound(n, t);
    if n.id != t {
      FindInSound(ChildNodes(n), t);
      ReplaceInBag(ChildNodes(n), t, m);
    }
  }

  lemma {:induction false} ReplaceInBag(ns: seq<Node>, t: Id, m: Node)
    requires FindIn(ns, t).Some?
    ensures var a := FindIn(ns, t).value;
      IdsAll(ReplaceIn(ns, t, m)) == IdsAll(ns) - Ids(a) + Ids(m)
          && CountAll(ReplaceIn(ns, t, m)) == CountAll(ns) - Count(a) + Count(m)
    decreases CountAll(ns), 1
  {
    FindInSound(ns, t);
    FindNodeSound(ns[0], t);
    var a := Ids(FindIn(ns, t).value);
    var r := ReplaceIn(ns, t, m);
    if FindNode(ns[0], t).Some? {
      ReplaceBag(ns[0], t, m);
      assert r[0] == Replace(ns[0], t, m) && r[1..] == ns[1..];
      BagSwapLeft(Ids(ns[0]), IdsAll(ns[1..]), a, Ids(m));
    } else {
      FindInSound(ns[1..], t);
      ReplaceInBag(ns[1..], t, m);
      assert r[0] == ns[0] && r[1..] == ReplaceIn(ns[1..], t, m);
      BagSwapRight(Ids(ns[0]), IdsAll(ns[1..]), a, Ids(m));
    }
  }

  /** A write that does not deepen the found subtree does not deepen the tree. */
  lemma {:induction false} ReplaceDepth(n: Node, t: Id, m: Node)
    requires FindNode(n, t).Some? && Depth(m) <= Depth(FindNode(n, t).value)
    ensures Depth(Replace(n, t, m)) <= Depth(n)
    decreases Count(n), 0
  {
    if n.id != t { ReplaceInDepth(ChildNodes(n), t, m); }
  }

  lemma {:induction false} ReplaceInDepth(ns: seq<Node>, t: Id, m: Node)
    requires FindIn(ns, t).Some? && Depth(m) <= Depth(FindIn(ns, t).value)
    ensures DepthAll(ReplaceIn(ns, t, m)) <= DepthAll(ns)
    decreases CountAll(ns), 1
  {
    if FindNode(ns[0], t).Some? {
      ReplaceDepth(ns[0], t, m);
    } else {
      ReplaceInDepth(ns[1..], t, m);
    }
  }

  /** Reading back a write answers the written node; a second write overwrites it; writing the
      node already there changes nothing. */
  lemma {:induction false} ReplaceReadBack(n: Node, t: Id, m: Node)
    requires FindNode(n, t).Some? && m.id == t
    ensures FindNode(Replace(n, t, m), t) == Some(m)
    decreases Count(n), 0
  {
    if n.id != t { ReplaceInReadBack(ChildNodes(n), t, m); }
  }

  lemma {:induction false} ReplaceInReadBack(ns: seq<Node>, t: Id, m: Node)
    requires FindIn(ns, t).Some? && m.id == t
    ensures FindIn(ReplaceIn(ns, t, m), t) == Some(m)
    decreases CountAll(ns), 1
  {
    if FindNode(ns[0], t).Some? {
      ReplaceReadBack(ns[0], t, m);
    } else {
      ReplaceInReadBack(ns[1..], t, m);
    }
  }

  lemma {:induction false} ReplaceTwice(n: Node, t: Id, m: Node, m': Node)
    requires FindNode(n, t).Some? && m.id == t
    ensures Replace(Replace(n, t, m), t, m') == Replace(n, t, m')
    decreases Count(n), 0
  {
    if n.id != t {
      ReplaceInTwice(ChildNodes(n), t, m, m');
    }
  }

  lemma {:induction false} ReplaceInTwice(ns: seq<Node>, t: Id, m: Node, m': Node)
    requires FindIn(ns, t).Some? && m.id == t
    ensures ReplaceIn(ReplaceIn(ns, t, m), t, m') == ReplaceIn(ns, t, m')
    decreases CountAll(ns), 1
  {
    if FindNode(ns[0], t).Some? {
      ReplaceReadBack(ns[0], t, m);
      ReplaceTwice(ns[0], t, m, m');
    } else {
      ReplaceInTwice(ns[1..], t, m, m');
    }
  }

  lemma {:induction false} ReplaceSame(n: Node, t: Id)
    requires FindNode(n, t).Some?
    ensures Replace(n, t, FindNode(n, t).value) == n
    decreases Count(n), 0
  {
    if n.id != t {
      ReplaceInSame(ChildNodes(n), t);
      WithOwnChildNodes(n);
    }
  }

  lemma {:induction false} ReplaceInSame(ns: seq<Node>, t: Id)
    requires FindIn(ns, t).Some?
    ensures ReplaceIn(ns, t, FindIn(ns, t).value) == ns
    decreases CountAll(ns), 1
  {
    if FindNode(ns[0], t).Some? {
      ReplaceSame(ns[0], t);
    } else {
      ReplaceInSame(ns[1..], t);
    }
  }

  // ----- lookups through a found node, where ids are unique -----

  /** Inside a tree of unique ids, an id of the subtree at `t` is found there, and writing it is
      writing that subtree. */
  lemma {:induction false} FindThrough(n: Node, t: Id, x: Id, m: Node)
    requires UniqueIds(n) && FindNode(n, t).Some? && x in Ids(FindNode(n, t).value)
    ensures var a := FindNode(n, t).value;
      FindNode(n, x) == FindNode(a, x) && Replace(n, x, m) == Replace(n, t, Replace(a, x, m))
    decreases Count(n), 0
  {
    if n.id != t {
      FindNodeSound(n, t);
      FindInSound(ChildNodes(n), t);
      assert x in IdsAll(ChildNodes(n));
      assert n.id != x;
      FindThroughIn(ChildNodes(n), t, x, m);
    }
  }

  lemma {:induction false} FindThroughIn(ns: seq<Node>, t: Id, x: Id, m: Node)
    requires Distinct(IdsAll(ns)) && FindIn(ns, t).Some? && x in Ids(FindIn(ns, t).value)
    ensures var a := FindIn(ns, t).value;
      FindIn(ns, x) == FindNode(a, x) && ReplaceIn(ns, x, m) == ReplaceIn(ns, t, Replace(a, x, m))
    decreases CountAll(ns), 1
  {
    var a := FindIn(ns, t).value;
    FindNodeSound(a, x);
    FindNodeSound(ns[0], t);
    FindNodeSound(ns[0], x);
    DistinctParts(Ids(ns[0]), IdsAll(ns[1..]));
    if FindNode(ns[0], t).Some? {
      FindThrough(ns[0], t, x, m);
    } else {
      FindInSound(ns[1..], t);
      FindThroughIn(ns[1..], t, x, m);
    }
  }
}
