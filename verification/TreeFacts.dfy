/** Facts about trees of unique ids that the engine's proofs share. */
module TreeFacts {
  import opened Trees
  import opened TreeOps

  lemma IdsAllSplit(ns: seq<Node>, i: nat)
    requires i < |ns|
    ensures IdsAll(ns) == IdsAll(ns[..i]) + Ids(ns[i]) + IdsAll(ns[i + 1..])
  {
    assert ns == ns[..i] + ns[i..];
    IdsAllConcat(ns[..i], ns[i..]);
  }

  lemma IdsAllMember(ns: seq<Node>, i: nat)
    requires i < |ns|
    ensures Ids(ns[i]) <= IdsAll(ns) && ns[i].id in IdsAll(ns)
  {
    IdsAllSplit(ns, i);
  }

  lemma SuffixAt<T>(s: seq<T>, from: nat, k: nat)
    requires from + k < |s|
    ensures s[from..][k] == s[from + k]
  {
  }

  lemma IdsAllFrom(ns: seq<Node>, j: nat)
    requires j < |ns|
    ensures IdsAll(ns[j..]) == Ids(ns[j]) + IdsAll(ns[j + 1..])
  {
    assert ns[j..][0] == ns[j] && ns[j..][1..] == ns[j + 1..];
  }

  /** Which of the entries from `j` on an id came from. */
  lemma {:induction false} OwnerFrom(ns: seq<Node>, j: nat, x: Id) returns (i: nat)
    requires j <= |ns| && x in IdsAll(ns[j..])
    ensures j <= i < |ns| && x in Ids(ns[i])
    decreases |ns| - j
  {
    assert j < |ns|;
    IdsAllFrom(ns, j);
    if x in Ids(ns[j]) { i := j; } else { i := OwnerFrom(ns, j + 1, x); }
  }

  /** Which list entry an id came from. */
  lemma IdsAllOwner(ns: seq<Node>, x: Id) returns (i: nat)
    requires x in IdsAll(ns)
    ensures i < |ns| && x in Ids(ns[i])
  {
    assert ns[0..] == ns;
    i := OwnerFrom(ns, 0, x);
  }

  lemma CountAllSplit(ns: seq<Node>, i: nat)
    requires i < |ns|
    ensures CountAll(ns) == CountAll(ns[..i]) + Count(ns[i]) + CountAll(ns[i + 1..])
  {
    assert ns == ns[..i] + ns[i..];
    CountAllConcat(ns[..i], ns[i..]);
  }

  lemma DepthAllSplit(ns: seq<Node>, i: nat)
    requires i < |ns|
    ensures DepthAll(ns) == Max(DepthAll(ns[..i]), Max(Depth(ns[i]), DepthAll(ns[i + 1..])))
  {
    assert ns == ns[..i] + ns[i..];
    DepthAllConcat(ns[..i], ns[i..]);
  }

  lemma SubBag(a: multiset<Id>, b: multiset<Id>, c: multiset<Id>)
    requires a !! b && c <= b
    ensures a !! c
  {
    forall x | x in a ensures x !in c {
      assert x !in b;
    }
  }

  lemma SubBags(a: multiset<Id>, b: multiset<Id>, c: multiset<Id>, d: multiset<Id>)
    requires a !! b && c <= a && d <= b
    ensures c !! d
  {
    SubBag(a, b, d);
    SubBag(d, a, c);
  }

  /** Two positions of one list share no id. */
  lemma PositionsDisjoint(ns: seq<Node>, i: nat, j: nat)
    requires Distinct(IdsAll(ns)) && i < j < |ns|
    ensures Ids(ns[i]) !! Ids(ns[j])
  {
    var front, back := ns[..j], ns[j..];
    assert ns == front + back;
    IdsAllConcat(front, back);
    DistinctParts(IdsAll(front), IdsAll(back));
    IdsAllMember(front, i);
    IdsAllMember(back, 0);
    SubBags(IdsAll(front), IdsAll(back), Ids(front[i]), Ids(back[0]));
  }

  lemma {:induction false} DistinctMember(ns: seq<Node>, i: nat)
    requires Distinct(IdsAll(ns)) && i < |ns|
    ensures UniqueIds(ns[i])
  {
    DistinctParts(Ids(ns[0]), IdsAll(ns[1..]));
    if i > 0 { DistinctMember(ns[1..], i - 1); }
  }

  lemma UniqueBelow(n: Node)
    requires UniqueIds(n)
    ensures Distinct(IdsAll(ChildNodes(n))) && n.id !in IdsAll(ChildNodes(n))
  {
    DistinctParts(multiset{n.id}, IdsAll(ChildNodes(n)));
  }

  lemma {:induction false} FindFirst(ns: seq<Node>, i: nat, t: Id)
    requires i < |ns| && FindNode(ns[i], t).Some? && forall k :: 0 <= k < i ==> FindNode(ns[k], t).None?
    ensures FindIn(ns, t) == FindNode(ns[i], t)
  {
    if i > 0 {
      assert FindNode(ns[0], t).None?;
      forall k | 0 <= k < i - 1 ensures FindNode(ns[1..][k], t).None? {
        assert ns[1..][k] == ns[k + 1];
      }
      FindFirst(ns[1..], i - 1, t);
    }
  }

  lemma {:induction false} ReplaceFirst(ns: seq<Node>, i: nat, t: Id, m: Node)
    requires i < |ns| && FindNode(ns[i], t).Some? && forall k :: 0 <= k < i ==> FindNode(ns[k], t).None?
    ensures ReplaceIn(ns, t, m) == ns[i := Replace(ns[i], t, m)]
  {
    if i == 0 {
      HeadReplaced(ns, t, m);
    } else {
      NoneEarlier(ns, i, t);
      ReplaceFirst(ns[1..], i - 1, t, m);
      HeadUntouched(ns, t, m);
      UpdateTail(ns, i, Replace(ns[i], t, m));
    }
  }

  lemma NoneEarlier(ns: seq<Node>, i: nat, t: Id)
    requires 0 < i < |ns| && forall k :: 0 <= k < i ==> FindNode(ns[k], t).None?
    ensures FindNode(ns[0], t).None? && forall k :: 0 <= k < i - 1 ==> FindNode(ns[1..][k], t).None?
  {
    forall k | 0 <= k < i - 1 ensures FindNode(ns[1..][k], t).None? { assert ns[1..][k] == ns[k + 1]; }
  }

  lemma UpdateTail(ns: seq<Node>, i: nat, r: Node)
    requires 0 < i < |ns|
    ensures ns[1..][i - 1] == ns[i] && ns[i := r] == [ns[0]] + ns[1..][i - 1 := r]
  {
  }

  lemma HeadReplaced(ns: seq<Node>, t: Id, m: Node)
    requires ns != [] && FindNode(ns[0], t).Some?
    ensures ReplaceIn(ns, t, m) == ns[0 := Replace(ns[0], t, m)]
  {
    var r := Replace(ns[0], t, m);
    assert ns[0 := r] == [r] + ns[1..];
  }

  lemma HeadUntouched(ns: seq<Node>, t: Id, m: Node)
    requires ns != [] && FindNode(ns[0], t).None?
    ensures ReplaceIn(ns, t, m) == [ns[0]] + ReplaceIn(ns[1..], t, m)
  {
  }

  lemma NotAtOther(ns: seq<Node>, k: nat, i: nat, t: Id)
    requires Distinct(IdsAll(ns)) && k < i < |ns| && t in Ids(ns[i])
    ensures FindNode(ns[k], t).None?
  {
    FindNodeSound(ns[k], t);
    PositionsDisjoint(ns, k, i);
    NotInBoth(Ids(ns[k]), Ids(ns[i]), t);
  }

  /** In a list of unique ids, an id of position `i` is looked up and written there. */
  lemma LookupAt(ns: seq<Node>, i: nat, t: Id, m: Node)
    requires Distinct(IdsAll(ns)) && i < |ns| && t in Ids(ns[i])
    ensures FindIn(ns, t) == FindNode(ns[i], t)
    ensures ReplaceIn(ns, t, m) == ns[i := Replace(ns[i], t, m)]
  {
    FindNodeSound(ns[i], t);
    forall k | 0 <= k < i ensures FindNode(ns[k], t).None? {
      NotAtOther(ns, k, i, t);
    }
    FindFirst(ns, i, t);
    ReplaceFirst(ns, i, t, m);
  }

  lemma NotInBoth(a: multiset<Id>, b: multiset<Id>, x: Id)
    requires a !! b && x in b
    ensures x !in a
  {
  }

  /** A subtree of a tree of unique ids has unique ids. */
  lemma {:induction false} FoundUnique(n: Node, t: Id)
    requires UniqueIds(n) && FindNode(n, t).Some?
    ensures UniqueIds(FindNode(n, t).value)
    decreases Count(n)
  {
    FindNodeSound(n, t);
    if n.id != t {
      UniqueBelow(n);
      var cs := ChildNodes(n);
      FindInSound(cs, t);
      var i := IdsAllOwner(cs, t);
      LookupAt(cs, i, t, n);
      DistinctMember(cs, i);
      CountAllAt(cs, i);
      FoundUnique(cs[i], t);
    }
  }

  /** Layout children lead the sub-node list, so a child's position is its sub-node position. */
  lemma ChildPositions(n: Node, i: nat)
    requires n.kind.Layout? && i < |n.kind.children|
    ensures i < |ChildNodes(n)| && ChildNodes(n)[i] == n.kind.children[i]
    ensures Count(n.kind.children[i]) < Count(n)
    ensures n.kind.children[i].id in Ids(n) && Ids(n.kind.children[i]) <= IdsAll(ChildNodes(n))
  {
    CountAllAt(ChildNodes(n), i);
    IdsAllMember(ChildNodes(n), i);
  }

  /** Writing a layout child through its parent writes that position of the child list. */
  lemma ReplaceChild(n: Node, i: nat, m: Node)
    requires UniqueIds(n) && n.kind.Layout? && i < |n.kind.children|
    ensures var t := n.kind.children[i].id;
      FindNode(n, t) == Some(n.kind.children[i])
      && Replace(n, t, m) == WithLayoutChildren(n, n.kind.children[i := m])
  {
    var t, cs := n.kind.children[i].id, ChildNodes(n);
    UniqueBelow(n);
    ChildPositions(n, i);
    LookupAt(cs, i, t, m);
    var k := |n.kind.children|;
    assert cs[i := m][..k] == n.kind.children[i := m];
  }

  lemma {:induction false} NoLayoutParent(n: Node, t: Id)
    ensures FindLayoutParent(n, t).Some? ==> t in IdsAll(ChildNodes(n))
    decreases Count(n), 0
  {
    if n.kind.Layout? && t in IdSeq(n.kind.children) {
      var i :| 0 <= i < |n.kind.children| && n.kind.children[i].id == t;
      ChildPositions(n, i);
    } else {
      NoLayoutParentIn(ChildNodes(n), t);
    }
  }

  lemma {:induction false} NoLayoutParentIn(ns: seq<Node>, t: Id)
    ensures FindLayoutParentIn(ns, t).Some? ==> t in IdsAll(ns)
    decreases CountAll(ns), 1
  {
    if ns != [] {
      NoLayoutParent(ns[0], t);
      NoLayoutParentIn(ns[1..], t);
    }
  }

  /** In a tree of unique ids, the layout node holding a child is the parent found for it. */
  lemma {:induction false} LayoutParentFound(n: Node, p: Id, i: nat)
    requires UniqueIds(n) && FindNode(n, p).Some?
    requires var q := FindNode(n, p).value; q.kind.Layout? && i < |q.kind.children|
    ensures FindLayoutParent(n, FindNode(n, p).value.kind.children[i].id) == FindNode(n, p)
    decreases Count(n), 0
  {
    var q := FindNode(n, p).value;
    var t := q.kind.children[i].id;
    FindNodeSound(n, p);
    ChildPositions(q, i);
    assert IdSeq(q.kind.children)[i] == t;
    if n.id != p {
      UniqueBelow(n);
      var cs := ChildNodes(n);
      FindInSound(cs, p);
      var j := IdsAllOwner(cs, p);
      LookupAt(cs, j, p, n);
      DistinctMember(cs, j);
      FoundBelow(cs[j], p, t);
      NotAChild(n, j, t);
      CountAllAt(cs, j);
      LayoutParentFound(cs[j], p, i);
      LayoutParentAt(cs, j, t);
    }
  }

  /** An id strictly below a sub-node is no layout child's own id. */
  lemma NotAChild(n: Node, j: nat, t: Id)
    requires UniqueIds(n) && j < |ChildNodes(n)| && t in IdsAll(ChildNodes(ChildNodes(n)[j]))
    ensures n.kind.Layout? ==> t !in IdSeq(n.kind.children)
  {
    var cs := ChildNodes(n);
    UniqueBelow(n);
    DistinctMember(cs, j);
    UniqueBelow(cs[j]);
    if n.kind.Layout? && t in IdSeq(n.kind.children) {
      var k :| 0 <= k < |n.kind.children| && n.kind.children[k].id == t;
      ChildPositions(n, k);
      OneOwner(cs, j, k, t);
    }
  }

  lemma OneOwner(cs: seq<Node>, j: nat, k: nat, t: Id)
    requires Distinct(IdsAll(cs)) && j < |cs| && k < |cs| && t in Ids(cs[j]) && t in Ids(cs[k])
    ensures j == k
  {
    if k < j { PositionsDisjoint(cs, k, j); } else if j < k { PositionsDisjoint(cs, j, k); }
  }

  /** An id strictly below a found node is strictly below the tree's root. */
  lemma FoundBelow(n: Node, p: Id, t: Id)
    requires UniqueIds(n) && FindNode(n, p).Some? && t in IdsAll(ChildNodes(FindNode(n, p).value))
    ensures t in IdsAll(ChildNodes(n))
  {
    FindNodeSound(n, p);
    if n.id != p {
      FindInSound(ChildNodes(n), p);
    }
  }

  lemma {:induction false} LayoutParentAt(ns: seq<Node>, j: nat, t: Id)
    requires Distinct(IdsAll(ns)) && j < |ns| && t in Ids(ns[j]) && FindLayoutParent(ns[j], t).Some?
    ensures FindLayoutParentIn(ns, t) == FindLayoutParent(ns[j], t)
  {
    if j > 0 {
      PositionsDisjoint(ns, 0, j);
      NoLayoutParent(ns[0], t);
      DistinctParts(Ids(ns[0]), IdsAll(ns[1..]));
      LayoutParentAt(ns[1..], j - 1, t);
    }
  }

  lemma {:induction false} WithoutAbsent(ns: seq<Node>, t: Id)
    requires t !in IdSeq(ns)
    ensures Without(ns, t) == ns
  {
    if ns != [] {
      assert IdSeq(ns)[0] == ns[0].id;
      assert forall k :: 0 <= k < |ns[1..]| ==> IdSeq(ns[1..])[k] == IdSeq(ns)[k + 1];
      WithoutAbsent(ns[1..], t);
    }
  }

  /** Dropping the one holder of an id drops its position. */
  lemma {:induction false} WithoutOne(ns: seq<Node>, i: nat)
    requires i < |ns| && forall k :: 0 <= k < |ns| && k != i ==> ns[k].id != ns[i].id
    ensures Without(ns, ns[i].id) == ns[..i] + ns[i + 1..]
  {
    if i == 0 {
      WithoutAbsent(ns[1..], ns[0].id);
    } else {
      WithoutOne(ns[1..], i - 1);
      assert ns[..i] + ns[i + 1..] == [ns[0]] + (ns[1..][..i - 1] + ns[1..][i..]);
    }
  }

  lemma SiblingIdsDiffer(ns: seq<Node>, i: nat, k: nat)
    requires Distinct(IdsAll(ns)) && i < |ns| && k < |ns| && i != k
    ensures ns[i].id != ns[k].id
  {
    if i < k { PositionsDisjoint(ns, i, k); } else { PositionsDisjoint(ns, k, i); }
    assert ns[i].id in Ids(ns[i]) && ns[k].id in Ids(ns[k]);
  }

  /** The depth of a write depends on what is written only through its depth. */
  lemma {:induction false} ReplaceSameDepth(n: Node, t: Id, m: Node, m': Node)
    requires FindNode(n, t).Some? && Depth(m) == Depth(m')
    ensures Depth(Replace(n, t, m)) == Depth(Replace(n, t, m'))
    decreases Count(n), 0
  {
    if n.id != t { ReplaceInSameDepth(ChildNodes(n), t, m, m'); }
  }

  lemma {:induction false} ReplaceInSameDepth(ns: seq<Node>, t: Id, m: Node, m': Node)
    requires FindIn(ns, t).Some? && Depth(m) == Depth(m')
    ensures DepthAll(ReplaceIn(ns, t, m)) == DepthAll(ReplaceIn(ns, t, m'))
    decreases CountAll(ns), 1
  {
    if FindNode(ns[0], t).Some? {
      ReplaceSameDepth(ns[0], t, m, m');
    } else {
      ReplaceInSameDepth(ns[1..], t, m, m');
    }
  }

  lemma AppendedIds(n: Node, kids: seq<Node>, b: Node)
    requires n.kind.Layout?
    ensures Ids(WithLayoutChildren(n, kids + [b])) == Ids(WithLayoutChildren(n, kids)) + Ids(b)
  {
    var m, m' := WithLayoutChildren(n, kids), WithLayoutChildren(n, kids + [b]);
    var rest := OptionSeq(n.state.onLoading) + OptionSeq(n.state.onEmpty);
    assert ChildNodes(m) == kids + rest && ChildNodes(m') == kids + [b] + rest;
    IdsAllConcat(kids, rest);
    IdsAllConcat(kids + [b], rest);
    IdsAllConcat(kids, [b]);
    assert [b][1..] == [];
    assert IdsAll([b]) == Ids(b) + IdsAll([]);
  }

  // ----- lists of ids -----

  predicate NoRepeats(ids: seq<Id>)
  {
    forall i, j :: 0 <= i < j < |ids| ==> ids[i] != ids[j]
  }

  lemma RepeatedCounts(s: seq<Id>, i: nat, j: nat)
    requires i < j < |s| && s[i] == s[j]
    ensures multiset(s)[s[i]] >= 2
  {
    assert s == s[..j] + [s[j]] + s[j + 1..];
    assert s[i] in multiset(s[..j]) by { assert s[..j][i] == s[i]; }
  }

  lemma {:induction false} TwoPositions(s: seq<Id>, x: Id) returns (k: nat, l: nat)
    requires multiset(s)[x] >= 2
    ensures k < l < |s| && s[k] == x == s[l]
  {
    assert s == [s[0]] + s[1..];
    if s[0] == x {
      assert x in multiset(s[1..]);
      l :| 0 <= l < |s[1..]| && s[1..][l] == x;
      k, l := 0, l + 1;
    } else {
      k, l := TwoPositions(s[1..], x);
      k, l := k + 1, l + 1;
    }
  }

  /** No id repeats exactly when each listed id is counted once. */
  lemma NoRepeatsCounts(s: seq<Id>)
    ensures NoRepeats(s) <==> forall x :: x in s ==> multiset(s)[x] == 1
  {
    forall x | x in s ensures multiset(s)[x] >= 1 { assert x in multiset(s); }
    if NoRepeats(s) {
      forall x | x in s ensures multiset(s)[x] == 1 {
        if multiset(s)[x] >= 2 { var k, l := TwoPositions(s, x); }
      }
    } else {
      var i, j :| 0 <= i < j < |s| && s[i] == s[j];
      RepeatedCounts(s, i, j);
      assert s[i] in s && multiset(s)[s[i]] != 1;
    }
  }

  /** The first node of an id is the one at the position where it first occurs. */
  lemma {:induction false} FirstAt(ns: seq<Node>, i: nat)
    requires i < |ns| && forall k :: 0 <= k < i ==> ns[k].id != ns[i].id
    ensures FirstWithId(ns, ns[i].id) == Some(ns[i])
  {
    if i > 0 { FirstAt(ns[1..], i - 1); }
  }

  lemma {:induction false} PickExact(ns: seq<Node>, ms: seq<Node>)
    requires forall m :: m in ms ==> FirstWithId(ns, m.id) == Some(m)
    ensures Pick(ns, IdSeq(ms)) == ms
  {
    if ms != [] {
      assert ms[0] in ms;
      assert IdSeq(ms)[1..] == IdSeq(ms[1..]);
      PickExact(ns, ms[1..]);
      assert ms == [ms[0]] + ms[1..];
    }
  }

  // ----- a layout node over other children -----

  /** Its sub-nodes: the children, then its surfaces. */
  lemma LayoutNodes(n: Node, kids: seq<Node>)
    requires n.kind.Layout?
    ensures var rest := OptionSeq(n.state.onLoading) + OptionSeq(n.state.onEmpty);
      ChildNodes(n) == n.kind.children + rest && ChildNodes(WithLayoutChildren(n, kids)) == kids + rest
  {
  }

  /** Its figures, from its children's and its surfaces'. */
  lemma LayoutParts(n: Node, kids: seq<Node>)
    requires n.kind.Layout?
    ensures var m, rest := WithLayoutChildren(n, kids), OptionSeq(n.state.onLoading) + OptionSeq(n.state.onEmpty);
      Ids(m) == multiset{n.id} + (IdsAll(kids) + IdsAll(rest)) && Count(m) == 1 + (CountAll(kids) + CountAll(rest))
      && Depth(m) == 1 + Max(DepthAll(kids), DepthAll(rest))
  {
    var rest := OptionSeq(n.state.onLoading) + OptionSeq(n.state.onEmpty);
    LayoutNodes(n, kids);
    IdsAllConcat(kids, rest);
    CountAllConcat(kids, rest);
    DepthAllConcat(kids, rest);
  }
}
