/** Row identity keys, and the partition of rows by key that grouping and windows share. */
module RowKeys {
  // ----- the key of a row -----

  function Digit(d: nat): char
    requires d < 10
  {
    (d + 48) as char
  }

  function Digits(n: nat): string
  {
    if n < 10 then [Digit(n)] else Digits(n / 10) + [Digit(n % 10)]
  }

  /** Each token behind its length, so that the joined key tells two rows apart. */
  function RowKey(tokens: seq<string>): string
  {
    if tokens == [] then "" else Digits(|tokens[0]|) + [':'] + tokens[0] + RowKey(tokens[1..])
  }

  lemma {:induction false} DigitsPlain(n: nat)
    ensures |Digits(n)| > 0 && forall i :: 0 <= i < |Digits(n)| ==> Digits(n)[i] != ':'
  {
    if n >= 10 { DigitsPlain(n / 10); }
  }

  lemma {:induction false} DigitsInjective(m: nat, n: nat)
    requires Digits(m) == Digits(n)
    ensures m == n
  {
    var d, e := Digits(m), Digits(n);
    DigitsPlain(m / 10);
    DigitsPlain(n / 10);
    assert d[|d| - 1] == e[|e| - 1];
    if m >= 10 && n >= 10 {
      assert Digits(m / 10) == d[..|d| - 1] == e[..|e| - 1] == Digits(n / 10);
      DigitsInjective(m / 10, n / 10);
    }
  }

  /** A length and what follows its mark are read back off the front. */
  lemma LengthReadsBack(m: nat, x: string, n: nat, y: string)
    requires Digits(m) + [':'] + x == Digits(n) + [':'] + y
    ensures m == n && x == y
  {
    var d, e := Digits(m), Digits(n);
    var s, t := d + [':'] + x, e + [':'] + y;
    DigitsPlain(m);
    DigitsPlain(n);
    assert s[|d|] == ':' && t[|e|] == ':';
    assert forall i :: 0 <= i < |d| ==> s[i] == d[i];
    assert forall i :: 0 <= i < |e| ==> t[i] == e[i];
    assert |d| == |e|;
    assert d == s[..|d|] && e == t[..|e|];
    DigitsInjective(m, n);
    assert x == s[|d| + 1..] && y == t[|e| + 1..];
  }

  /** Two rows share a key exactly when their tokens agree one by one. */
  lemma {:induction false} RowKeyInjective(a: seq<string>, b: seq<string>)
    requires RowKey(a) == RowKey(b)
    ensures a == b
  {
    if a != [] { DigitsPlain(|a[0]|); }
    if b != [] { DigitsPlain(|b[0]|); }
    if a != [] && b != [] {
      var x, y := a[0] + RowKey(a[1..]), b[0] + RowKey(b[1..]);
      assert RowKey(a) == Digits(|a[0]|) + [':'] + x && RowKey(b) == Digits(|b[0]|) + [':'] + y;
      LengthReadsBack(|a[0]|, x, |b[0]|, y);
      assert a[0] == x[..|a[0]|] && b[0] == y[..|b[0]|];
      assert RowKey(a[1..]) == x[|a[0]|..] && RowKey(b[1..]) == y[|b[0]|..];
      RowKeyInjective(a[1..], b[1..]);
      assert a == [a[0]] + a[1..] && b == [b[0]] + b[1..];
    }
  }

  // ----- partitions in first-appearance order -----

  /** Whether a row is the first of its key. */
  predicate IsFirst(keys: seq<string>, i: nat)
    requires i < |keys|
  {
    keys[i] !in keys[..i]
  }

  /** The rows that are first of their key, in order. */
  function Firsts(keys: seq<string>): seq<nat>
  {
    if keys == [] then []
    else
      var n := |keys| - 1;
      Firsts(keys[..n]) + (if IsFirst(keys, n) then [n] else [])
  }

  /** The rows of a key, in order. */
  function Members(keys: seq<string>, key: string): seq<nat>
  {
    if keys == [] then []
    else
      var n := |keys| - 1;
      Members(keys[..n], key) + (if keys[n] == key then [n] else [])
  }

  ghost predicate Increasing(s: seq<nat>, bound: nat)
  {
    (forall i :: 0 <= i < |s| ==> s[i] < bound) && forall i, j :: 0 <= i < j < |s| ==> s[i] < s[j]
  }

  lemma {:induction false} FirstsExact(keys: seq<string>)
    ensures Increasing(Firsts(keys), |keys|)
    ensures forall i :: 0 <= i < |keys| ==> (i in Firsts(keys) <==> IsFirst(keys, i))
  {
    if keys != [] {
      var n := |keys| - 1;
      var front := keys[..n];
      FirstsExact(front);
      forall i | 0 <= i < |keys| ensures i in Firsts(keys) <==> IsFirst(keys, i) {
        if i < n { assert front[i] == keys[i] && front[..i] == keys[..i]; }
      }
    }
  }

  lemma {:induction false} MembersExact(keys: seq<string>, key: string)
    ensures Increasing(Members(keys, key), |keys|)
    ensures forall i :: 0 <= i < |keys| ==> (i in Members(keys, key) <==> keys[i] == key)
  {
    if keys != [] {
      var n := |keys| - 1;
      var front := keys[..n];
      MembersExact(front, key);
      forall i | 0 <= i < |keys| ensures i in Members(keys, key) <==> keys[i] == key {
        if i < n { assert front[i] == keys[i]; }
      }
    }
  }

  /** Every key occurs first somewhere. */
  lemma {:induction false} FirstOf(keys: seq<string>, i: nat) returns (f: nat)
    requires i < |keys|
    ensures f <= i && keys[f] == keys[i] && IsFirst(keys, f)
  {
    if IsFirst(keys, i) {
      f := i;
    } else {
      var j :| 0 <= j < i && keys[..i][j] == keys[i];
      f := FirstOf(keys, j);
    }
  }

  /** Row `i` is a member of the group headed by the `g`th first row. */
  ghost predicate InGroup(keys: seq<string>, i: nat, g: nat)
  {
    g < |Firsts(keys)| && Firsts(keys)[g] < |keys| && i in Members(keys, keys[Firsts(keys)[g]])
  }

  lemma SomeGroup(keys: seq<string>, i: nat) returns (g: nat)
    requires i < |keys|
    ensures InGroup(keys, i, g)
  {
    FirstsExact(keys);
    var f := FirstOf(keys, i);
    g :| 0 <= g < |Firsts(keys)| && Firsts(keys)[g] == f;
    MembersExact(keys, keys[f]);
  }

  lemma OneGroup(keys: seq<string>, i: nat, g: nat, h: nat)
    requires InGroup(keys, i, g) && InGroup(keys, i, h) && i < |keys|
    ensures g == h
  {
    FirstsExact(keys);
    var f, e := Firsts(keys)[g], Firsts(keys)[h];
    MembersExact(keys, keys[f]);
    MembersExact(keys, keys[e]);
    OneHead(keys, f, e);
  }

  /** The groups partition the rows: each row belongs to exactly one. */
  lemma ExactlyOneGroup(keys: seq<string>, i: nat) returns (g: nat)
    requires i < |keys|
    ensures InGroup(keys, i, g) && forall h: nat :: InGroup(keys, i, h) ==> h == g
  {
    g := SomeGroup(keys, i);
    forall h: nat | InGroup(keys, i, h) ensures h == g {
      OneGroup(keys, i, g, h);
    }
  }

  lemma OneHead(keys: seq<string>, f: nat, h: nat)
    requires f < |keys| && h < |keys| && f in Firsts(keys) && h in Firsts(keys) && keys[f] == keys[h]
    ensures f == h
  {
    FirstsExact(keys);
    if f < h { NoneEarlier(keys, h, f); }
    if h < f { NoneEarlier(keys, f, h); }
  }

  lemma NoneEarlier(keys: seq<string>, f: nat, i: nat)
    requires i < f < |keys| && IsFirst(keys, f)
    ensures keys[i] != keys[f]
  {
    assert keys[..f][i] == keys[i];
  }

  /** A group holds the row it is named by first. */
  lemma HeadIsFirst(keys: seq<string>, f: nat)
    requires f < |keys| && f in Firsts(keys)
    ensures Members(keys, keys[f]) != [] && Members(keys, keys[f])[0] == f
  {
    FirstsExact(keys);
    MembersExact(keys, keys[f]);
    var m := Members(keys, keys[f]);
    var j :| 0 <= j < |m| && m[j] == f;
    assert m[0] in m;
    assert m[0] <= f && keys[m[0]] == keys[f];
  }

  /** The order lists each key once. */
  ghost predicate EachOnce(order: seq<string>, keys: seq<string>)
  {
    (forall k :: k in order <==> k in keys) && forall i, j :: 0 <= i < j < |order| ==> order[i] != order[j]
  }

  lemma EachOnceStep(order: seq<string>, front: seq<string>, key: string)
    requires EachOnce(order, front)
    ensures EachOnce(if key in front then order else order + [key], front + [key])
  {
  }

  /** The loop both verbs run: each row joins its key's group, a new key opening one. */
  method Partition(keys: seq<string>) returns (order: seq<string>, groups: map<string, seq<nat>>)
    ensures |order| == |Firsts(keys)|
    ensures forall g :: 0 <= g < |order| ==> Firsts(keys)[g] < |keys| && order[g] == keys[Firsts(keys)[g]]
    ensures forall key :: key in groups <==> key in keys
    ensures forall key :: key in groups ==> groups[key] == Members(keys, key)
    ensures EachOnce(order, keys)
  {
    order, groups := [], map[];
    for n := 0 to |keys|
      invariant PartitionedSoFar(keys[..n], order, groups)
    {
      var key := keys[n];
      PartitionStep(keys[..n], order, groups, key);
      assert keys[..n + 1] == keys[..n] + [key];
      if key in groups {
        groups := groups[key := groups[key] + [n]];
      } else {
        order := order + [key];
        groups := groups[key := [n]];
      }
    }
    assert keys[..|keys|] == keys;
  }

  /** The keys read so far, in first-appearance order. */
  ghost predicate OrderOk(keys: seq<string>, order: seq<string>)
  {
    |order| == |Firsts(keys)|
    && forall g :: 0 <= g < |order| ==> Firsts(keys)[g] < |keys| && order[g] == keys[Firsts(keys)[g]]
  }

  ghost predicate GroupsOk(keys: seq<string>, groups: map<string, seq<nat>>)
  {
    forall key :: (key in groups <==> key in keys) && (key in groups ==> groups[key] == Members(keys, key))
  }

  /** The partition of the rows read so far. */
  ghost predicate PartitionedSoFar(keys: seq<string>, order: seq<string>, groups: map<string, seq<nat>>)
  {
    OrderOk(keys, order) && GroupsOk(keys, groups) && EachOnce(order, keys)
  }

  lemma FirstsSnoc(keys: seq<string>, key: string)
    ensures Firsts(keys + [key]) == Firsts(keys) + (if key in keys then [] else [|keys|])
  {
    assert (keys + [key])[..|keys|] == keys;
  }

  lemma MembersSnoc(keys: seq<string>, key: string, k: string)
    ensures Members(keys + [key], k) == Members(keys, k) + (if k == key then [|keys|] else [])
  {
    assert (keys + [key])[..|keys|] == keys;
  }

  lemma OrderStep(keys: seq<string>, order: seq<string>, key: string)
    requires OrderOk(keys, order)
    ensures OrderOk(keys + [key], if key in keys then order else order + [key])
  {
    FirstsSnoc(keys, key);
    var firsts, all := Firsts(keys), keys + [key];
    assert forall i :: 0 <= i < |keys| ==> all[i] == keys[i];
  }

  lemma GroupsStep(keys: seq<string>, groups: map<string, seq<nat>>, key: string)
    requires GroupsOk(keys, groups)
    ensures GroupsOk(keys + [key], groups[key := (if key in groups then groups[key] else []) + [|keys|]])
  {
    var after := groups[key := (if key in groups then groups[key] else []) + [|keys|]];
    NewKeyHasNoMembers(keys, key);
    forall k ensures (k in after <==> k in keys + [key]) && (k in after ==> after[k] == Members(keys + [key], k)) {
      MembersSnoc(keys, key, k);
    }
  }

  lemma PartitionStep(keys: seq<string>, order: seq<string>, groups: map<string, seq<nat>>, key: string)
    requires PartitionedSoFar(keys, order, groups)
    ensures key in groups ==> PartitionedSoFar(keys + [key], order, groups[key := groups[key] + [|keys|]])
    ensures key !in groups ==> PartitionedSoFar(keys + [key], order + [key], groups[key := [|keys|]])
  {
    OrderStep(keys, order, key);
    GroupsStep(keys, groups, key);
    EachOnceStep(order, keys, key);
    assert [] + [|keys|] == [|keys|];
  }

  lemma {:induction false} NewKeyHasNoMembers(keys: seq<string>, key: string)
    ensures Members(keys, key) == [] || key in keys
  {
    if keys != [] {
      var n := |keys| - 1;
      NewKeyHasNoMembers(keys[..n], key);
      assert key in keys[..n] ==> key in keys;
    }
  }
}
